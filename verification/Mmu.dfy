/** The MMU as the emulator runs it: two TLBs, a one-line fetch cache and two direct-mapped
    page-pointer caches, over the bus of module `Srmmu`. */
module Mmu {
  import opened Words
  import opened Banks
  import opened Srmmu
  import opened Tlb

  const WAYS: nat := 16
  const NO_PAGE: nat := 0xFFFF_FFFF

  /** A cached page: `off` is the position of the page's first byte in the buffer of bank `bank`. */
  datatype Line = Line(vpage: nat, ctx: Word, super: bool, bank: nat, off: int) {
    predicate Hits(c: Word, va: Word, s: bool) {
      vpage == va / 0x1000 && super == s && ctx == c
    }
    predicate InUse() {
      vpage < 0x10_0000
    }
  }

  const EMPTY: Line := Line(NO_PAGE, 0xFFFF_FFFF, false, 0, 0)

  /* Coherence: what a cached translation promises */

  /** A live TLB entry equals the walk on its whole region, stale addresses excepted. */
  ghost predicate EntryTrue(dev: Device, bus: Bus, ptr: Word, stale: iset<(Word, Word)>, e: Entry) {
    e.Live() ==>
      && 1 <= e.level <= 3 && e.mask == LevelMask(e.level) && e.context <= 255
      && forall va: Word :: e.Hits(e.context, va) && (e.context, va) !in stale ==>
           Walk(dev, bus, ptr, e.context, va) == Walked(e.pte, e.level)
  }

  /** The line's host pointer is the position of va's translation, which is allowed, in the only buffer on the page. */
  ghost predicate PointsAt(dev: Device, bus: Bus, ptr: Word, intent: Intent, line: Line, va: Word) {
    var t := Translate(dev, bus, ptr, line.ctx, va, line.super, intent);
    && t.Mapped? && OnlyBuffer(bus.banks, line.bank, t.pa) && Plain(bus.banks[line.bank], intent)
    && line.off + va % 0x1000 == t.pa - bus.banks[line.bank].base
  }

  ghost predicate LineTrue(dev: Device, bus: Bus, ptr: Word, stale: iset<(Word, Word)>, intent: Intent, line: Line) {
    line.InUse() ==>
      forall va: Word :: va / 0x1000 == line.vpage && (line.ctx, va) !in stale ==>
          PointsAt(dev, bus, ptr, intent, line, va)
  }

  ghost predicate AllEntriesTrue(dev: Device, bus: Bus, ptr: Word, stale: iset<(Word, Word)>, es: seq<Entry>) {
    forall i :: 0 <= i < |es| ==> EntryTrue(dev, bus, ptr, stale, es[i])
  }

  ghost predicate AllLinesTrue(dev: Device, bus: Bus, ptr: Word,
                               stale: iset<(Word, Word)>, intent: Intent, ls: seq<Line>) {
    forall i :: 0 <= i < |ls| ==> LineTrue(dev, bus, ptr, stale, intent, ls[i])
  }

  lemma EntryStays(dev: Device, bus: Bus, ptr: Word, bus': Bus, ptr': Word, stale: iset<(Word, Word)>, e: Entry)
    requires EntryTrue(dev, bus, ptr, stale, e)
    ensures EntryTrue(dev, bus', ptr', stale + Moved(dev, bus, ptr, bus', ptr'), e)
  {
    if e.Live() {
      forall va: Word | e.Hits(e.context, va) && (e.context, va) !in stale + Moved(dev, bus, ptr, bus', ptr')
        ensures Walk(dev, bus', ptr', e.context, va) == Walked(e.pte, e.level)
      {
        NotMoved(dev, bus, ptr, bus', ptr', e.context, va);
      }
    }
  }

  /** A translation follows from the walk alone. */
  lemma TranslateStays(dev: Device, bus: Bus, ptr: Word, bus': Bus, ptr': Word,
                       c: Word, va: Word, super: bool, intent: Intent)
    requires Walk(dev, bus, ptr, c, va) == Walk(dev, bus', ptr', c, va)
    ensures Translate(dev, bus, ptr, c, va, super, intent) == Translate(dev, bus', ptr', c, va, super, intent)
  {
  }

  lemma PointerStays(dev: Device, bus: Bus, ptr: Word, bus': Bus, ptr': Word, intent: Intent, line: Line, va: Word)
    requires PointsAt(dev, bus, ptr, intent, line, va) && SameShape(bus.banks, bus'.banks)
    requires Translate(dev, bus, ptr, line.ctx, va, line.super, intent) ==
             Translate(dev, bus', ptr', line.ctx, va, line.super, intent)
    ensures PointsAt(dev, bus', ptr', intent, line, va)
  {
    ScanShape(bus.banks, bus'.banks, Translate(dev, bus, ptr, line.ctx, va, line.super, intent).pa);
  }

  lemma NotMoved(dev: Device, bus: Bus, ptr: Word, bus': Bus, ptr': Word, c: Word, va: Word)
    requires (c, va) !in Moved(dev, bus, ptr, bus', ptr') && IsPte(Walk(dev, bus, ptr, c, va).pte)
    ensures Walk(dev, bus, ptr, c, va) == Walk(dev, bus', ptr', c, va)
  {
  }

  lemma LineStays(dev: Device, bus: Bus, ptr: Word, bus': Bus, ptr': Word,
                  stale: iset<(Word, Word)>, intent: Intent, line: Line)
    requires LineTrue(dev, bus, ptr, stale, intent, line) && SameShape(bus.banks, bus'.banks)
    ensures LineTrue(dev, bus', ptr', stale + Moved(dev, bus, ptr, bus', ptr'), intent, line)
  {
    var moved := Moved(dev, bus, ptr, bus', ptr');
    if line.InUse() {
      forall va: Word | va / 0x1000 == line.vpage && (line.ctx, va) !in stale + moved
        ensures PointsAt(dev, bus', ptr', intent, line, va)
      {
        MappedIsPte(dev, bus, ptr, line.ctx, va, line.super, intent);
        NotMoved(dev, bus, ptr, bus', ptr', line.ctx, va);
        TranslateStays(dev, bus, ptr, bus', ptr', line.ctx, va, line.super, intent);
        PointerStays(dev, bus, ptr, bus', ptr', intent, line, va);
      }
    }
  }

  /** A translation cached from a walk is true of its whole region. */
  lemma FilledEntryTrue(dev: Device, bus: Bus, ptr: Word, stale: iset<(Word, Word)>, c: Word, va: Word)
    requires c <= 255
    requires var w := Walk(dev, bus, ptr, c, va); IsPte(w.pte) && 1 <= w.level
    ensures var w := Walk(dev, bus, ptr, c, va);
            EntryTrue(dev, bus, ptr, stale,
                      Entry(BitAnd(va, LevelMask(w.level)), LevelMask(w.level), w.pte, c, w.level))
  {
    var w := Walk(dev, bus, ptr, c, va);
    var e := Entry(BitAnd(va, LevelMask(w.level)), LevelMask(w.level), w.pte, c, w.level);
    forall va': Word | e.Hits(c, va') && (c, va') !in stale
      ensures Walk(dev, bus, ptr, c, va') == w
    {
      WalkIsRegional(dev, bus, ptr, c, va, va');
    }
  }

  lemma PointerOnPage(dev: Device, bus: Bus, ptr: Word, intent: Intent, line: Line, va: Word, va': Word)
    requires PointsAt(dev, bus, ptr, intent, line, va) && va / 0x1000 == va' / 0x1000
    ensures PointsAt(dev, bus, ptr, intent, line, va')
  {
    TranslateIsPaged(dev, bus, ptr, line.ctx, va, va', line.super, intent);
    var t, t' := Translate(dev, bus, ptr, line.ctx, va, line.super, intent),
                 Translate(dev, bus, ptr, line.ctx, va', line.super, intent);
    SamePageBuffer(bus.banks, line.bank, t.pa, t'.pa);
  }

  lemma SamePageBuffer(banks: seq<Bank>, i: nat, pa: Word, pa': Word)
    requires OnlyBuffer(banks, i, pa) && pa / 0x1000 == pa' / 0x1000
    ensures OnlyBuffer(banks, i, pa')
  {
    assert pa - pa % 0x1000 == pa' - pa' % 0x1000;
  }

  /** A page pointer that is right for one address is right for the whole page. */
  lemma FilledLineTrue(dev: Device, bus: Bus, ptr: Word, stale: iset<(Word, Word)>,
                       intent: Intent, line: Line, va: Word)
    requires line.vpage == va / 0x1000 && PointsAt(dev, bus, ptr, intent, line, va)
    ensures LineTrue(dev, bus, ptr, stale, intent, line)
  {
    forall va': Word | va' / 0x1000 == line.vpage && (line.ctx, va') !in stale
      ensures PointsAt(dev, bus, ptr, intent, line, va')
    {
      PointerOnPage(dev, bus, ptr, intent, line, va, va');
    }
  }

  /** What the fast paths do behind a page pointer. */
  function RawLoad(bus: Bus, line: Line, va: Word, size: Size): Word {
    if line.bank < |bus.banks| then RawRead(bus.banks[line.bank].data, line.off + va % 0x1000, size) else 0
  }

  function RawStore(bus: Bus, line: Line, va: Word, size: Size, v: Word): Bus
    requires line.bank < |bus.banks|
  {
    var b := bus.banks[line.bank];
    bus.(banks := bus.banks[line.bank := b.(data := RawWrite(b.data, line.off + va % 0x1000, size, v))])
  }

  lemma StoreKeepsShape(bus: Bus, line: Line, va: Word, size: Size, v: Word)
    requires line.bank < |bus.banks|
    ensures SameShape(bus.banks, RawStore(bus, line, va, size, v).banks)
  {
  }

  /** Going through a true page pointer is the uncached access. */
  lemma ThroughLine(dev: Device, s: State, q: Request, line: Line)
    requires s.Enabled() && Served(dev, s, q)
    requires line.ctx == s.ctx && line.super == q.super
    requires PointsAt(dev, s.bus, s.tablePtr, q.intent, line, q.va)
    ensures Access(dev, s, q) ==
            if q.intent.Store? then (s.(bus := RawStore(s.bus, line, q.va, q.size, q.value)), Done(q.value))
            else (s, Done(RawLoad(s.bus, line, q.va, q.size)))
  {
  }

  /** The line an access to bank i at pa fills. */
  function FilledLine(s: State, q: Request, i: nat, pa: Word): Line
    requires i < |s.bus.banks|
  {
    Line(q.va / 0x1000, s.ctx, q.super, i, pa - pa % 0x1000 - s.bus.banks[i].base)
  }

  /** A load or fetch through the line of its way: state, result and line afterwards. */
  function ReadThrough(dev: Device, s: State, line: Line, q: Request): (State, Result, Line) {
    if s.Enabled() && line.Hits(s.ctx, q.va, q.super) then (s, Done(RawLoad(s.bus, line, q.va, q.size)), line)
    else match Filled(dev, s, q)
         case Some(line') => (s, Done(RawLoad(s.bus, line', q.va, q.size)), line')
         case None => var (s', r) := Access(dev, s, q); (s', r, line)
  }

  /** The line an access that misses fills, if it reaches a bank with a buffer with translation on. */
  function Filled(dev: Device, s: State, q: Request): Option<Line> {
    if !s.Enabled() then None
    else match Translate(dev, s.bus, s.tablePtr, s.ctx, q.va, q.super, q.intent)
         case Mapped(pa, _, _) =>
           (match Scan(s.bus.banks, pa)
            case None => None
            case Some(i) => if s.bus.banks[i].host then Some(FilledLine(s, q, i, pa)) else None)
         case _ => None
  }

  /** Through a true line, to a page that is served, a read is the uncached one and leaves a true line. */
  lemma ReadIsAccess(dev: Device, s: State, line: Line, q: Request, stale: iset<(Word, Word)>)
    requires !q.intent.Store?
    requires LineTrue(dev, s.bus, s.tablePtr, stale, q.intent, line) && Fresh(dev, s, stale, Mem(q))
    ensures var (s', r, line') := ReadThrough(dev, s, line, q);
            (s', r) == Access(dev, s, q) && LineTrue(dev, s.bus, s.tablePtr, stale, q.intent, line')
  {
    if s.Enabled() && line.Hits(s.ctx, q.va, q.super) {
      ThroughLine(dev, s, q, line);
    } else if Filled(dev, s, q).Some? {
      FillIsAccess(dev, s, q, stale);
    }
  }

  lemma FillIsAccess(dev: Device, s: State, q: Request, stale: iset<(Word, Word)>)
    requires Filled(dev, s, q).Some? && Served(dev, s, q)
    ensures var line := Filled(dev, s, q).value;
            && LineTrue(dev, s.bus, s.tablePtr, stale, q.intent, line)
            && PointsAt(dev, s.bus, s.tablePtr, q.intent, line, q.va)
            && (!q.intent.Store? ==> Access(dev, s, q) == (s, Done(RawLoad(s.bus, line, q.va, q.size))))
  {
    var line := Filled(dev, s, q).value;
    PageOffset(dev, s.bus, s.tablePtr, s.ctx, q.va, q.super, q.intent);
    FilledLineTrue(dev, s.bus, s.tablePtr, stale, q.intent, line, q.va);
    ThroughLine(dev, s, q, line);
  }

  lemma PageOffset(dev: Device, bus: Bus, ptr: Word, c: Word, va: Word, super: bool, intent: Intent)
    ensures var t := Translate(dev, bus, ptr, c, va, super, intent); t.Mapped? ==> t.pa % 0x1000 == va % 0x1000
  {
    var w := Walk(dev, bus, ptr, c, va);
    PhysAddrParts(w.pte, w.level, va);
  }

  lemma NothingMoved(dev: Device, bus: Bus, ptr: Word)
    ensures Moved(dev, bus, ptr, bus, ptr) == iset{}
  {
  }

  /* The side conditions are needed */

  /** Another access of the same kind on the same page. */
  ghost predicate SamePage(q: Request, q': Request) {
    q'.va / 0x1000 == q.va / 0x1000 && q'.super == q.super && q'.intent == q.intent
  }

  /** No bank with a buffer answers the access. */
  ghost predicate Unanswered(dev: Device, s: State, q: Request) {
    var t := Translate(dev, s.bus, s.tablePtr, s.ctx, q.va, q.super, q.intent);
    t.Mapped? && Scan(s.bus.banks, t.pa).Some? ==> !s.bus.banks[Scan(s.bus.banks, t.pa).value].host
  }

  /** On a page that holds more than the bank's own addresses, a filled line answers for addresses that no
      bank or a peripheral should answer: the access is never the uncached one. */
  lemma UncoveredDiffers(dev: Device, s: State, q: Request, q': Request)
    requires !q.intent.Store? && Filled(dev, s, q).Some? && SamePage(q, q')
    requires Unanswered(dev, s, q')
    ensures var (s', r, _) := ReadThrough(dev, s, Filled(dev, s, q).value, q'); (s', r) != Access(dev, s, q')
  {
    TranslateIsPaged(dev, s.bus, s.tablePtr, s.ctx, q.va, q'.va, q.super, q.intent);
    var t := Translate(dev, s.bus, s.tablePtr, s.ctx, q'.va, q'.super, q'.intent);
    if Scan(s.bus.banks, t.pa).Some? {
      assert |Access(dev, s, q').0.bus.log| == |s.bus.log| + 1;
    }
  }

  /** Every access on the page goes through the line as it would uncached. */
  ghost predicate LineServesPage(dev: Device, s: State, q: Request, line: Line) {
    forall q': Request :: SamePage(q, q') ==>
      ReadThrough(dev, s, line, q').0 == Access(dev, s, q').0 && ReadThrough(dev, s, line, q').1 == Access(dev, s, q').1
  }

  /** The access reaches bank i, which has a buffer, at pa. */
  ghost predicate Reaches(dev: Device, s: State, q: Request, i: nat, pa: Word) {
    var t := Translate(dev, s.bus, s.tablePtr, s.ctx, q.va, q.super, q.intent);
    && s.Enabled() && t.Mapped? && t.pa == pa && pa % 0x1000 == q.va % 0x1000
    && i < |s.bus.banks| && Scan(s.bus.banks, pa) == Some(i) && s.bus.banks[i].host
  }

  /** The bank covers the page of pa. */
  predicate Covers(b: Bank, pa: Word) {
    b.base <= pa - pa % 0x1000 && pa - pa % 0x1000 + 0x1000 <= b.base + b.size
  }

  /** On a page whose only buffer is big-endian, a read through the line that its bank filled is the uncached read if
      and only if that bank is the one to answer. */
  lemma ThroughLineExact(dev: Device, s: State, q: Request, i: nat, pa: Word, q': Request)
    requires !q.intent.Store? && SamePage(q, q') && Reaches(dev, s, q, i, pa)
    requires OnlyBuffer(s.bus.banks, i, pa) && s.bus.banks[i].endian.Big?
    ensures var (s', r, _) := ReadThrough(dev, s, FilledLine(s, q, i, pa), q');
            (s', r) == Access(dev, s, q') <==> Scan(s.bus.banks, pa - pa % 0x1000 + q'.va % 0x1000) == Some(i)
  {
    var line := FilledLine(s, q, i, pa);
    PointerOnPage(dev, s.bus, s.tablePtr, q.intent, line, q.va, q'.va);
    TranslateIsPaged(dev, s.bus, s.tablePtr, s.ctx, q.va, q'.va, q.super, q.intent);
    var pa' := Translate(dev, s.bus, s.tablePtr, s.ctx, q'.va, q'.super, q'.intent).pa;
    assert pa' == pa - pa % 0x1000 + q'.va % 0x1000;
    SamePageBuffer(s.bus.banks, i, pa, pa');
    if Scan(s.bus.banks, pa') == Some(i) {
      ThroughLine(dev, s, q', line);
    } else {
      OtherAnswers(s.bus.banks, i, pa');
      UncoveredDiffers(dev, s, q, q');
    }
  }

  /** Where the only buffer of a page does not answer, no buffer does. */
  lemma OtherAnswers(banks: seq<Bank>, i: nat, pa: Word)
    requires OnlyBuffer(banks, i, pa) && Scan(banks, pa) != Some(i)
    ensures Scan(banks, pa).Some? ==> !banks[Scan(banks, pa).value].host
  {
    var j := Scan(banks, pa);
    assert j.Some? ==> SharesPage(banks[j.value], pa);
  }

  /** An address of the page that the bank does not cover. */
  function UncoveredAddress(b: Bank, va: Word, pa: Word): (va': Word)
    requires !Covers(b, pa)
    ensures va' / 0x1000 == va / 0x1000
    ensures !(b.base <= pa - pa % 0x1000 + va' % 0x1000 < b.base + b.size)
  {
    if b.base <= pa - pa % 0x1000 then va - va % 0x1000 + 0xFFF else va - va % 0x1000
  }

  /** On a page with no other buffer, the line a read fills serves the whole page if and only if its bank covers the
      page. */
  lemma PagePointerExact(dev: Device, s: State, q: Request, i: nat, pa: Word)
    requires PairwiseDisjoint(s.bus.banks) && !q.intent.Store? && Reaches(dev, s, q, i, pa)
    requires OnlyBuffer(s.bus.banks, i, pa) && s.bus.banks[i].endian.Big?
    ensures LineServesPage(dev, s, q, FilledLine(s, q, i, pa)) <==> Covers(s.bus.banks[i], pa)
  {
    if Covers(s.bus.banks[i], pa) {
      forall q': Request | SamePage(q, q')
        ensures ReadThrough(dev, s, FilledLine(s, q, i, pa), q').0 == Access(dev, s, q').0
        ensures ReadThrough(dev, s, FilledLine(s, q, i, pa), q').1 == Access(dev, s, q').1
      {
        UniqueBank(s.bus.banks, pa - pa % 0x1000 + q'.va % 0x1000, i);
        ThroughLineExact(dev, s, q, i, pa, q');
      }
    } else {
      var q' := q.(va := UncoveredAddress(s.bus.banks[i], q.va, pa));
      ThroughLineExact(dev, s, q, i, pa, q');
      assert SamePage(q, q');
    }
  }

  /** The fast paths read every buffer of a bank as the bank itself does exactly when it is big-endian. */
  lemma HostPointerNeedsBigEndian(b: Bank)
    requires b.base < 0xFFFF_FFF0
    ensures (forall data: seq<Byte>, addr: Word ::
               BankRead(b.(data := data), addr, 4) == RawRead(data, addr - b.base, 4))
            <==> b.endian.Big?
  {
    if b.endian.Little? {
      var data: seq<Byte> := [1, 0, 0, 0];
      assert BankRead(b.(data := data), b.base, 4) == 1;
      assert RawRead(data, b.base - b.base, 4) == 0x100_0000;
    }
  }

  /** What a hit in the TLB makes of its PTE, live or not. */
  function ByTable(pte: Word, level: nat, va: Word, super: bool, intent: Intent): Translation {
    var at := AccessType(intent, super);
    var ft := if PermOk(pte, at) then 0 else FaultType(pte, level, at);
    if ft != 0 then Denied(ft, level) else Mapped(PhysAddr(pte, level, va), level, pte)
  }

  /** In the all-ones context the blank micro-cache of an unused TLB hits at every address, and lets every load through
      untranslated; the uncached machine refuses it. */
  lemma AllOnesContextLoads(dev: Device, bus: Bus, ptr: Word, va: Word, super: bool)
    ensures UNUSED.Hits(NO_CONTEXT, va) && ByTable(UNUSED.pte, UNUSED.level, va, super, Load) == Mapped(va, 0, 0)
    ensures Translate(dev, bus, ptr, NO_CONTEXT, va, super, Load).Refused?
  {
    assert BitAnd(va, 0) == 0;
    assert PermOk(0, AccessType(Load, super));
    IdentityPage(va);
  }

  /* A run on the emulator's own map, where half a page of RAM is followed by peripherals */

  /** RAM of 0x800 bytes at 0x24000000, peripherals at 0x24000800 and 0x24000900, and main memory holding a page table
      that maps the 16 MiB at 0x01000000 to those at 0x24000000. */
  function SmallBankMap(): seq<Bank> {
    [Bank(0x2400_0000, 0x800, true, Big, true, []),
     Bank(0x2400_0800, 0x100, false, Big, true, []),
     Bank(0x2400_0900, 0x100, false, Big, true, []),
     Bank(0x4000_0000, 0x1000, true, Big, true, [0x04, 0, 0, 0x01, 0x02, 0x40, 0, 0x0E])]
  }

  lemma SmallBankScan(pa: Word, i: nat)
    requires i < 4 && SmallBankMap()[i].Contains(pa)
    ensures PairwiseDisjoint(SmallBankMap()) && Scan(SmallBankMap(), pa) == Some(i)
  {
    UniqueBank(SmallBankMap(), pa, i);
  }

  /** On the page they share, the RAM's own addresses are served and no others. */
  lemma SmallBankServed(pa: Word, intent: Intent)
    requires pa / 0x1000 == 0x2_4000
    ensures Serves(SmallBankMap(), pa, intent) <==> pa < 0x2400_0800
  {
    var banks := SmallBankMap();
    assert banks[0].host && SharesPage(banks[0], pa);
    if pa < 0x2400_0800 {
      SmallBankScan(pa, 0);
    }
  }

  lemma SmallBankTable(dev: Device, bus: Bus)
    requires bus.banks == SmallBankMap()
    ensures TableWord(dev, bus, 0x4000_0000) == 0x0400_0001 && TableWord(dev, bus, 0x4000_0004) == 0x0240_000E
  {
    SmallBankScan(0x4000_0000, 3);
    SmallBankScan(0x4000_0004, 3);
  }

  lemma WalkToLevelOne(dev: Device, bus: Bus, ptr: Word, c: Word, va: Word, root: Word, pte: Word)
    requires TableWord(dev, bus, (ptr * 16 + c * 4) % 0x1_0000_0000) == root && root % 4 == 1
    requires TableWord(dev, bus, EntryAddr(root, va / 0x100_0000)) == pte && pte % 4 != 1
    ensures Walk(dev, bus, ptr, c, va) == Walked(pte, 1)
  {
  }

  lemma TranslateByWalk(dev: Device, bus: Bus, ptr: Word, c: Word, va: Word, super: bool, intent: Intent, w: Walked)
    requires Walk(dev, bus, ptr, c, va) == w && c <= 255 && w.level > 0
    requires FaultType(w.pte, w.level, AccessType(intent, super)) == 0
    ensures Translate(dev, bus, ptr, c, va, super, intent) == Mapped(PhysAddr(w.pte, w.level, va), w.level, w.pte)
  {
  }

  lemma SmallBankAddress(va: Word)
    requires va / 0x1000 == 0x1000
    ensures PhysAddr(0x0240_000E, 1, va) == 0x2300_0000 + va
  {
    assert PhysPage(0x0240_000E, 1, 0x1000) == 0x2_4000;
  }

  lemma SmallBankTranslates(dev: Device, bus: Bus, va: Word)
    requires TableWord(dev, bus, 0x4000_0000) == 0x0400_0001 && TableWord(dev, bus, 0x4000_0004) == 0x0240_000E
    requires va / 0x1000 == 0x1000
    ensures Translate(dev, bus, 0x400_0000, 0, va, true, Load) == Mapped(0x2300_0000 + va, 1, 0x0240_000E)
  {
    assert va / 0x100_0000 == 1;
    WalkToLevelOne(dev, bus, 0x400_0000, 0, va, 0x0400_0001, 0x0240_000E);
    TranslateByWalk(dev, bus, 0x400_0000, 0, va, true, Load, Walked(0x0240_000E, 1));
    SmallBankAddress(va);
  }

  lemma SmallBankShared(dev: Device, s: State, q: Request, q': Request)
    requires s.bus.banks == SmallBankMap() && s.Enabled() && s.tablePtr == 0x400_0000 && s.ctx == 0
    requires q.intent.Load? && q'.intent.Load? && q.super && q'.super && q.va == 0x100_0000 && q'.va == 0x100_0800
    ensures PairwiseDisjoint(s.bus.banks) && Filled(dev, s, q).Some? && Unanswered(dev, s, q')
  {
    SmallBankTable(dev, s.bus);
    SmallBankTranslates(dev, s.bus, q.va);
    SmallBankTranslates(dev, s.bus, q'.va);
    SmallBankScan(0x2400_0000, 0);
    SmallBankScan(0x2400_0800, 1);
  }

  /** Two reads on one page through an empty line: the first fills it, and the second, at an address that no bank or
      a peripheral should answer, goes wrong. */
  lemma UncoveredRun(dev: Device, s: State, q: Request, q': Request)
    requires !q.intent.Store? && Filled(dev, s, q).Some? && SamePage(q, q') && Unanswered(dev, s, q')
    ensures var (s1, _, line) := ReadThrough(dev, s, EMPTY, q);
            var (s2, r, _) := ReadThrough(dev, s1, line, q');
            s1 == s && (s2, r) != Access(dev, s1, q')
  {
    UncoveredDiffers(dev, s, q, q');
  }

  /** On the emulator's own map: a load at the start of the small RAM and one 0x800 further on, which gets
      bytes from behind the RAM buffer and never reaches the peripheral. */
  lemma SmallBankRun(dev: Device)
    ensures var s := State(1, 0x400_0000, 0, 0, 0, Bus(SmallBankMap(), []));
            var q, q' := Request(Load, 0x100_0000, 4, 0, true, true), Request(Load, 0x100_0800, 4, 0, true, true);
            var (s1, _, line) := ReadThrough(dev, s, EMPTY, q);
            var (s2, r, _) := ReadThrough(dev, s1, line, q');
            s1 == s && (s2, r) != Access(dev, s1, q')
  {
    var s := State(1, 0x400_0000, 0, 0, 0, Bus(SmallBankMap(), []));
    var q, q' := Request(Load, 0x100_0000, 4, 0, true, true), Request(Load, 0x100_0800, 4, 0, true, true);
    SmallBankShared(dev, s, q, q');
    UncoveredRun(dev, s, q, q');
  }

  lemma IdentityPage(va: Word)
    ensures PhysAddr(0, 0, va) == va
  {
    assert PhysPage(0, 0, va / 0x1000) == va / 0x1000;
  }

  class Unit {
    const dev: Device
    const itlb: Buffer
    const dtlb: Buffer
    const dataCache: array<Line>
    const storeCache: array<Line>
    var fetchCache: Line
    var control: Word
    var tablePtr: Word
    var ctx: Word
    var fsr: Word
    var far: Word
    var bus: Bus
    ghost var stale: iset<(Word, Word)>

    ghost function S(): State
      reads this
    {
      State(control, tablePtr, ctx, fsr, far, bus)
    }

    /** Every live TLB entry is true of the given memory, stale addresses excepted. */
    ghost predicate TlbsTrue(b: Bus, ptr: Word)
      reads this`stale, itlb.entries, dtlb.entries
    {
      && AllEntriesTrue(dev, b, ptr, stale, itlb.entries[..])
      && AllEntriesTrue(dev, b, ptr, stale, dtlb.entries[..])
    }

    /** And so is every page pointer. */
    ghost predicate LinesTrue(b: Bus, ptr: Word)
      reads this`stale, this`fetchCache, dataCache, storeCache
    {
      && LineTrue(dev, b, ptr, stale, Execute, fetchCache)
      && AllLinesTrue(dev, b, ptr, stale, Load, dataCache[..])
      && AllLinesTrue(dev, b, ptr, stale, Store, storeCache[..])
    }

    ghost predicate TlbValid()
      reads this`bus, this`tablePtr, this`stale, itlb, dtlb, itlb.entries, dtlb.entries
    {
      && itlb != dtlb && itlb.entries != dtlb.entries && dataCache != storeCache
      && dataCache.Length == WAYS && storeCache.Length == WAYS
      && itlb.Valid() && dtlb.Valid()
      && TlbsTrue(bus, tablePtr)
    }

    ghost predicate Valid()
      reads this, itlb, dtlb, itlb.entries, dtlb.entries, dataCache, storeCache
    {
      TlbValid() && LinesTrue(bus, tablePtr)
    }

    constructor (dev: Device, bus: Bus)
      ensures Valid() && stale == iset{}
      ensures this.dev == dev && S() == State(0, 0, 0, 0, 0, bus)
      ensures itlb.mc == UNUSED && dtlb.mc == UNUSED
      ensures fresh(itlb) && fresh(dtlb) && fresh(itlb.entries) && fresh(dtlb.entries) &&
              fresh(dataCache) && fresh(storeCache)
    {
      this.dev := dev;
      itlb := new Buffer();
      dtlb := new Buffer();
      dataCache := new Line[WAYS](_ => EMPTY);
      storeCache := new Line[WAYS](_ => EMPTY);
      fetchCache := EMPTY;
      control, tablePtr, ctx, fsr, far := 0, 0, 0, 0, 0;
      this.bus := bus;
      stale := iset{};
    }

    method CheckPerms(va: Word, pte: Word, level: nat, at: nat, report: bool) returns (ft: int)
      requires at < 8
      modifies this`fsr, this`far
      ensures ft == FaultType(pte, level, at)
      ensures S() == if ft != 0 then RecordFault(old(S()), report, va, level, at, ft) else old(S())
    {
      ft := FaultType(pte, level, at);
      if ft != 0 && report {
        far := va;
        fsr := FaultStatus(level, at, ft);
      }
    }

    /** On a TLB hit the bit-mask table decides; a refused access goes through the full check to
        record its fault. For a PTE that is the full check; anything else the table lets through is
        not checked. */
    method CheckPermsByTable(va: Word, pte: Word, level: nat, at: nat, report: bool) returns (ft: int)
      requires at < 8
      modifies this`fsr, this`far
      ensures IsPte(pte) ==> ft == FaultType(pte, level, at)
      ensures ft == if PermOk(pte, at) then 0 else FaultType(pte, level, at)
      ensures S() == if ft != 0 then RecordFault(old(S()), report, va, level, at, ft) else old(S())
    {
      if IsPte(pte) {
        PermTableExact(pte, level, at);
      }
      ft := 0;
      if !PermOk(pte, at) {
        ft := CheckPerms(va, pte, level, at, report);
      }
    }

    /** A TLB hit on a fresh address is the walk. In the all-ones context only the micro-cache can hit, live or not. */
    method LookupTlb(tlb: Buffer, va: Word) returns (found: bool, pte: Word, level: nat)
      requires TlbValid() && (tlb == itlb || tlb == dtlb)
      requires ctx != NO_CONTEXT ==> (ctx, va) !in stale
      modifies tlb`mc
      ensures TlbValid()
      ensures found && ctx != NO_CONTEXT ==>
                Walk(dev, bus, tablePtr, ctx, va) == Walked(pte, level) && IsPte(pte) && level >= 1 && ctx <= 255
      ensures ctx == NO_CONTEXT ==>
                && (found <==> old(tlb.mc).Hits(ctx, va))
                && (found ==> pte == old(tlb.mc).pte && level == old(tlb.mc).level)
    {
      if ctx == NO_CONTEXT {
        NoLiveHit(tlb, va);
      }
      found, pte, level := tlb.Lookup(ctx, va);
      if found && ctx != NO_CONTEXT {
        var i :| 0 <= i < TLB_ENTRIES && tlb.entries[i].Live() && tlb.entries[i].Hits(ctx, va)
                 && pte == tlb.entries[i].pte && level == tlb.entries[i].level;
        assert EntryTrue(dev, bus, tablePtr, stale, tlb.entries[..][i]);
      }
    }

    lemma NoLiveHit(tlb: Buffer, va: Word)
      requires TlbValid() && (tlb == itlb || tlb == dtlb)
      ensures !LiveHit(tlb.entries[..], NO_CONTEXT, va)
    {
      forall i | 0 <= i < TLB_ENTRIES
        ensures !(tlb.entries[..][i].Live() && tlb.entries[..][i].Hits(NO_CONTEXT, va))
      {
        assert EntryTrue(dev, bus, tablePtr, stale, tlb.entries[..][i]);
      }
    }

    /** Walks the table and keeps a valid PTE; fails on a PTE found in the context table. */
    method Refill(tlb: Buffer, va: Word) returns (ok: bool, pte: Word, level: nat)
      requires TlbValid() && (tlb == itlb || tlb == dtlb) && ctx <= 255
      modifies tlb, tlb.entries
      ensures TlbValid()
      ensures Walk(dev, bus, tablePtr, ctx, va) == Walked(pte, level)
      ensures ok <==> !(IsPte(pte) && level == 0)
    {
      var w := Walk(dev, bus, tablePtr, ctx, va);
      pte, level, ok := w.pte, w.level, true;
      if IsPte(pte) {
        ok := tlb.Insert(ctx, va, level, pte);
        if ok {
          FilledEntryTrue(dev, bus, tablePtr, stale, ctx, va);
        }
      }
    }

    /** The PTE for an address, from the TLB or from a walk that refills it. */
    method FindPte(tlb: Buffer, va: Word) returns (ok: bool, hit: bool, pte: Word, level: nat)
      requires TlbValid() && (tlb == itlb || tlb == dtlb)
      requires ctx != NO_CONTEXT ==> (ctx, va) !in stale
      modifies tlb, tlb.entries
      ensures TlbValid()
      ensures ok && ctx != NO_CONTEXT ==>
                && ctx <= 255 && Walk(dev, bus, tablePtr, ctx, va) == Walked(pte, level)
                && !(IsPte(pte) && level == 0) && (hit ==> IsPte(pte))
      ensures !ok ==> Translate(dev, bus, tablePtr, ctx, va, true, Load).Refused?
      ensures ctx == NO_CONTEXT ==>
                && (ok <==> old(tlb.mc).Hits(ctx, va))
                && (ok ==> hit && pte == old(tlb.mc).pte && level == old(tlb.mc).level)
    {
      hit, pte, level := LookupTlb(tlb, va);
      ok := true;
      if !hit {
        if ctx > 255 {
          return false, hit, pte, level;
        }
        ok, pte, level := Refill(tlb, va);
      }
    }

    /** The permission check and the physical address for a PTE that was found or walked. */
    method Conclude(va: Word, super: bool, intent: Intent, report: bool, hit: bool, pte: Word, level: nat)
      returns (t: Translation)
      modifies this`fsr, this`far
      ensures IsPte(pte) || !hit ==>
                var ft := FaultType(pte, level, AccessType(intent, super));
                t == if ft != 0 then Denied(ft, level) else Mapped(PhysAddr(pte, level, va), level, pte)
      ensures hit ==> t == ByTable(pte, level, va, super, intent)
      ensures t.Denied? ==> 0 < t.ft < 5
      ensures S() == if t.Denied? then RecordFault(old(S()), report, va, t.level, AccessType(intent, super), t.ft)
              else old(S())
    {
      var at := AccessType(intent, super);
      var ft;
      if hit {
        ft := CheckPermsByTable(va, pte, level, at, report);
      } else {
        ft := CheckPerms(va, pte, level, at, report);
      }
      return if ft != 0 then Denied(ft, level) else Mapped(PhysAddr(pte, level, va), level, pte);
    }

    /** Translation through the TLBs gives what the walk gives, except in the all-ones context: there an unused
        micro-cache answers with what it last held. */
    method TranslateVa(va: Word, super: bool, intent: Intent, report: bool) returns (t: Translation)
      requires TlbValid() && (ctx != NO_CONTEXT ==> (ctx, va) !in stale)
      modifies this`fsr, this`far, itlb, dtlb, itlb.entries, dtlb.entries
      ensures TlbValid()
      ensures ctx != NO_CONTEXT ==> t == Translate(dev, bus, tablePtr, ctx, va, super, intent)
      ensures ctx == NO_CONTEXT ==>
                var mc := old(if intent.Execute? then itlb.mc else dtlb.mc);
                t == if mc.Hits(ctx, va) then ByTable(mc.pte, mc.level, va, super, intent) else Refused
      ensures t.Denied? ==> 0 < t.ft < 5
      ensures S() == if t.Denied? then RecordFault(old(S()), report, va, t.level, AccessType(intent, super), t.ft)
              else old(S())
    {
      var ok, hit, pte, level := FindPte(if intent.Execute? then itlb else dtlb, va);
      if !ok {
        return Refused;
      }
      t := Conclude(va, super, intent, report, hit, pte, level);
    }

    /** Memory or the table pointer changed from (b, ptr): the addresses whose walk moved become stale. */
    ghost method Settle(b: Bus, ptr: Word)
      requires TlbsTrue(b, ptr) && SameShape(b.banks, bus.banks)
      modifies this`stale
      ensures stale == old(stale) + Moved(dev, b, ptr, bus, tablePtr)
      ensures TlbsTrue(bus, tablePtr)
      ensures old(LinesTrue(b, ptr)) ==> LinesTrue(bus, tablePtr)
    {
      forall e | EntryTrue(dev, b, ptr, stale, e)
        ensures EntryTrue(dev, bus, tablePtr, stale + Moved(dev, b, ptr, bus, tablePtr), e)
      {
        EntryStays(dev, b, ptr, bus, tablePtr, stale, e);
      }
      forall intent, line | LineTrue(dev, b, ptr, stale, intent, line)
        ensures LineTrue(dev, bus, tablePtr, stale + Moved(dev, b, ptr, bus, tablePtr), intent, line)
      {
        LineStays(dev, b, ptr, bus, tablePtr, stale, intent, line);
      }
      stale := stale + Moved(dev, b, ptr, bus, tablePtr);
    }

    /** The translating half of an access that missed the page-pointer caches. */
    method Locate(q: Request) returns (pa: Option<Word>, r: Result)
      requires TlbValid() && Settled(S(), stale, q)
      modifies this`fsr, this`far, itlb, dtlb, itlb.entries, dtlb.entries
      ensures TlbValid()
      ensures pa.None? ==>
                && (S(), r) == Access(dev, old(S()), q)
                && S().Enabled() && !Translate(dev, bus, tablePtr, ctx, q.va, q.super, q.intent).Mapped?
      ensures pa.Some? ==> S() == old(S()) && Access(dev, S(), q) == PhysAccess(dev, S(), q, pa.value)
      ensures pa.Some? && S().Enabled() ==>
                var t := Translate(dev, bus, tablePtr, ctx, q.va, q.super, q.intent); t.Mapped? && t.pa == pa.value
    {
      if control % 2 == 0 {
        return Some(q.va), Threw;
      }
      var t := TranslateVa(q.va, q.super, q.intent, q.report);
      match t {
        case Refused => return None, Threw;
        case Denied(ft, level) =>
          FaultStatusKeepsType(level, AccessType(q.intent, q.super), ft);
          return None, Fault(if q.report then -(fsr / 4 % 8) else -1);
        case Mapped(a, _, _) => return Some(a), Threw;
      }
    }

    method BusFault(q: Request) returns (r: Result)
      modifies this`fsr, this`far
      ensures S() == RecordFault(old(S()), q.report, q.va, 0, AccessType(q.intent, q.super), 5) && r == Fault(-5)
    {
      if q.report {
        far := q.va;
        fsr := FaultStatus(0, AccessType(q.intent, q.super), 5);
      }
      return Fault(-5);
    }

    /** An access that missed: finished here, or the bank and the physical address it reaches. */
    method Resolve(q: Request) returns (at: Option<(nat, Word)>, r: Result)
      requires TlbValid() && Settled(S(), stale, q)
      modifies this`fsr, this`far, itlb, dtlb, itlb.entries, dtlb.entries
      ensures TlbValid()
      ensures at.None? ==> (S(), r) == Access(dev, old(S()), q) && Filled(dev, old(S()), q) == None
      ensures at.Some? ==>
                var (i, pa) := at.value;
                && S() == old(S()) && Scan(bus.banks, pa) == Some(i) &&
                   Access(dev, S(), q) == PhysAccess(dev, S(), q, pa)
                && Filled(dev, S(), q) == if S().Enabled() && bus.banks[i].host then Some(FilledLine(S(), q, i, pa))
                   else None
    {
      var pa;
      pa, r := Locate(q);
      if pa.None? {
        return None, r;
      }
      var i := Scan(bus.banks, pa.value);
      if i.None? {
        r := BusFault(q);
        return None, r;
      }
      return Some((i.value, pa.value)), Threw;
    }

    /** A load or fetch that missed its line: the line to fill, or the access done without one. */
    method ReadMiss(q: Request) returns (r: Result, line: Option<Line>)
      requires TlbValid() && !q.intent.Store? && Settled(S(), stale, q)
      modifies this`fsr, this`far, this`bus, this`stale, itlb, dtlb, itlb.entries, dtlb.entries
      ensures TlbValid() && line == Filled(dev, old(S()), q)
      ensures line.Some? ==> S() == old(S()) && stale == old(stale) && r == Done(RawLoad(bus, line.value, q.va, q.size))
      ensures line.None? ==>
                && (S(), r) == Access(dev, old(S()), q) && (old(LinesTrue(bus, tablePtr)) ==> LinesTrue(bus, tablePtr))
                && stale == old(stale) + Moved(dev, old(bus), tablePtr, bus, tablePtr)
    {
      var at;
      at, r := Resolve(q);
      if at.None? {
        NothingMoved(dev, bus, tablePtr);
        return r, None;
      }
      r, line := ReadAt(q, at.value.0, at.value.1);
    }

    /** A read that reaches bank i at pa: the line to fill, or the read done without one. */
    method ReadAt(q: Request, i: nat, pa: Word) returns (r: Result, line: Option<Line>)
      requires TlbValid() && !q.intent.Store? && Scan(bus.banks, pa) == Some(i)
      modifies this`bus, this`stale
      ensures TlbValid()
      ensures line == if S().Enabled() && old(bus).banks[i].host then Some(FilledLine(old(S()), q, i, pa)) else None
      ensures line.Some? ==> S() == old(S()) && stale == old(stale) && r == Done(RawLoad(bus, line.value, q.va, q.size))
      ensures line.None? ==>
                && (S(), r) == PhysAccess(dev, old(S()), q, pa) &&
                   (old(LinesTrue(bus, tablePtr)) ==> LinesTrue(bus, tablePtr))
                && stale == old(stale) + Moved(dev, old(bus), tablePtr, bus, tablePtr)
    {
      if control % 2 == 1 && bus.banks[i].host {
        var filled := Line(q.va / 0x1000, ctx, q.super, i, pa - pa % 0x1000 - bus.banks[i].base);
        return Done(RawLoad(bus, filled, q.va, q.size)), Some(filled);
      }
      r := ReadDirect(q, i, pa);
      return r, None;
    }

    /** Reads through the bank that answers. */
    method ReadDirect(q: Request, i: nat, pa: Word) returns (r: Result)
      requires TlbValid() && !q.intent.Store? && Scan(bus.banks, pa) == Some(i)
      modifies this`bus, this`stale
      ensures TlbValid() && (S(), r) == PhysAccess(dev, old(S()), q, pa)
      ensures old(LinesTrue(bus, tablePtr)) ==> LinesTrue(bus, tablePtr)
      ensures stale == old(stale) + Moved(dev, old(bus), tablePtr, bus, tablePtr)
    {
      var v := ReadBank(i, pa, q.size);
      return Done(v);
    }

    /** The fetch path as it stands: through the fetch cache when it hits, else translate and fill. */
    method FetchLine(q: Request) returns (r: Result)
      requires TlbValid() && q.intent.Execute? && Settled(S(), stale, q)
      modifies this`fsr, this`far, this`bus, this`stale, itlb, dtlb, itlb.entries, dtlb.entries, this`fetchCache
      ensures TlbValid() && (S(), r, fetchCache) == ReadThrough(dev, old(S()), old(fetchCache), q)
      ensures stale == old(stale) + Moved(dev, old(bus), tablePtr, bus, tablePtr)
      ensures (bus == old(bus) && stale == old(stale))
           || (fetchCache == old(fetchCache) && (old(LinesTrue(bus, tablePtr)) ==> LinesTrue(bus, tablePtr)))
    {
      NothingMoved(dev, bus, tablePtr);
      if control % 2 == 1 && fetchCache.Hits(ctx, q.va, q.super) {
        return Done(RawLoad(bus, fetchCache, q.va, q.size));
      }
      var line;
      r, line := ReadMiss(q);
      if line.Some? {
        fetchCache := line.value;
      }
    }

    /** With true lines and a page that is served, the fetch path is the uncached fetch. */
    method Fetch(q: Request) returns (r: Result)
      requires Valid() && q.intent.Execute? && Fresh(dev, S(), stale, Mem(q))
      modifies this`fsr, this`far, this`bus, this`stale, itlb, dtlb, itlb.entries, dtlb.entries, this`fetchCache
      ensures Valid()
      ensures (S(), r) == Access(dev, old(S()), q)
      ensures stale == Stale(dev, old(stale), old(S()), Mem(q))
    {
      ReadIsAccess(dev, S(), fetchCache, q, stale);
      r := FetchLine(q);
    }

    /** The load path as it stands: through the load cache when it hits, else translate and fill. */
    method LoadLine(q: Request) returns (r: Result)
      requires TlbValid() && q.intent.Load? && Settled(S(), stale, q)
      modifies this`fsr, this`far, this`bus, this`stale, itlb, dtlb, itlb.entries, dtlb.entries, dataCache
      ensures TlbValid() && (S(), r, dataCache[q.va / 0x1000 % WAYS]) ==
              ReadThrough(dev, old(S()), old(dataCache[q.va / 0x1000 % WAYS]), q)
      ensures dataCache[..] == old(dataCache[..])[q.va / 0x1000 % WAYS := dataCache[q.va / 0x1000 % WAYS]]
      ensures stale == old(stale) + Moved(dev, old(bus), tablePtr, bus, tablePtr)
      ensures (bus == old(bus) && stale == old(stale))
           || (&& dataCache[q.va / 0x1000 % WAYS] == old(dataCache[q.va / 0x1000 % WAYS])
               && (old(LinesTrue(bus, tablePtr)) ==> LinesTrue(bus, tablePtr)))
    {
      NothingMoved(dev, bus, tablePtr);
      if control % 2 == 1 && dataCache[q.va / 0x1000 % WAYS].Hits(ctx, q.va, q.super) {
        return Done(RawLoad(bus, dataCache[q.va / 0x1000 % WAYS], q.va, q.size));
      }
      var line;
      r, line := ReadMiss(q);
      if line.Some? {
        dataCache[q.va / 0x1000 % WAYS] := line.value;
      }
    }

    /** With true lines and a page that is served, the load path is the uncached load. */
    method LoadData(q: Request) returns (r: Result)
      requires Valid() && q.intent.Load? && Fresh(dev, S(), stale, Mem(q))
      modifies this`fsr, this`far, this`bus, this`stale, itlb, dtlb, itlb.entries, dtlb.entries, dataCache
      ensures Valid()
      ensures (S(), r) == Access(dev, old(S()), q)
      ensures stale == Stale(dev, old(stale), old(S()), Mem(q))
    {
      ReadIsAccess(dev, S(), dataCache[q.va / 0x1000 % WAYS], q, stale);
      r := LoadLine(q);
    }

    /** Stores behind a page pointer that is right for the address. */
    method WriteThrough(q: Request, line: Line) returns (r: Result)
      requires Valid() && q.intent.Store? && S().Enabled() && line.ctx == ctx && line.super == q.super
      requires PointsAt(dev, bus, tablePtr, Store, line, q.va) && Served(dev, S(), q)
      modifies this`bus, this`stale
      ensures Valid()
      ensures (S(), r) == Access(dev, old(S()), q)
      ensures stale == old(stale) + Moved(dev, old(bus), old(tablePtr), bus, tablePtr)
    {
      ghost var b := bus;
      ThroughLine(dev, S(), q, line);
      StoreKeepsShape(bus, line, q.va, q.size, q.value);
      bus := RawStore(bus, line, q.va, q.size, q.value);
      Settle(b, tablePtr);
      return Done(q.value);
    }

    /** Stores through the bank's own accessor. */
    method WriteBank(i: nat, pa: Word, size: Size, v: Word)
      requires Valid() && i < |bus.banks|
      modifies this`bus, this`stale
      ensures Valid()
      ensures S() == old(S()).(bus := BusWrite(old(bus), i, pa, size, v))
      ensures stale == old(stale) + Moved(dev, old(bus), old(tablePtr), bus, tablePtr)
    {
      ghost var b := bus;
      bus := BusWrite(bus, i, pa, size, v);
      Settle(b, tablePtr);
    }

    /** Reads through the bank's own accessor. */
    method ReadBank(i: nat, pa: Word, size: Size) returns (v: Word)
      requires TlbValid() && i < |bus.banks|
      modifies this`bus, this`stale
      ensures TlbValid() && (old(LinesTrue(bus, tablePtr)) ==> LinesTrue(bus, tablePtr))
      ensures BusRead(dev, old(bus), i, pa, size) == (v, bus) && S() == old(S()).(bus := bus)
      ensures stale == old(stale) + Moved(dev, old(bus), old(tablePtr), bus, tablePtr)
    {
      ghost var b := bus;
      var (w, b') := BusRead(dev, bus, i, pa, size);
      bus := b';
      Settle(b, tablePtr);
      return w;
    }

    /** Data store: through the store cache when it hits, else translate and fill. */
    method StoreData(q: Request) returns (r: Result)
      requires Valid() && q.intent.Store? && Fresh(dev, S(), stale, Mem(q))
      modifies this`fsr, this`far, this`bus, this`stale, itlb, dtlb, itlb.entries, dtlb.entries, storeCache
      ensures Valid()
      ensures (S(), r) == Access(dev, old(S()), q)
      ensures stale == Stale(dev, old(stale), old(S()), Mem(q))
    {
      NothingMoved(dev, bus, tablePtr);
      if control % 2 == 1 {
        var line := storeCache[q.va / 0x1000 % WAYS];
        if line.Hits(ctx, q.va, q.super) {
          r := WriteThrough(q, line);
          return;
        }
      }
      r := StoreMiss(q);
    }

    /** A store that misses translates, fills the store cache and writes. */
    method StoreMiss(q: Request) returns (r: Result)
      requires Valid() && q.intent.Store? && Fresh(dev, S(), stale, Mem(q))
      modifies this`fsr, this`far, this`bus, this`stale, itlb, dtlb, itlb.entries, dtlb.entries, storeCache
      ensures Valid()
      ensures (S(), r) == Access(dev, old(S()), q)
      ensures stale == Stale(dev, old(stale), old(S()), Mem(q))
    {
      NothingMoved(dev, bus, tablePtr);
      var at;
      at, r := Resolve(q);
      if at.Some? {
        r := StoreAt(q, at.value.0, at.value.1);
      }
    }

    /** A store that reaches bank i at pa fills the store cache if the bank has a buffer, and writes. */
    method StoreAt(q: Request, i: nat, pa: Word) returns (r: Result)
      requires Valid() && q.intent.Store? && Fresh(dev, S(), stale, Mem(q))
      requires Scan(bus.banks, pa) == Some(i) && Access(dev, S(), q) == PhysAccess(dev, S(), q, pa)
      requires Filled(dev, S(), q) == if S().Enabled() && bus.banks[i].host then Some(FilledLine(S(), q, i, pa))
               else None
      modifies this`bus, this`stale, storeCache
      ensures Valid()
      ensures (S(), r) == Access(dev, old(S()), q)
      ensures stale == Stale(dev, old(stale), old(S()), Mem(q))
    {
      if control % 2 == 1 && bus.banks[i].host {
        var line := Line(q.va / 0x1000, ctx, q.super, i, pa - pa % 0x1000 - bus.banks[i].base);
        FillIsAccess(dev, S(), q, stale);
        storeCache[q.va / 0x1000 % WAYS] := line;
        r := WriteThrough(q, line);
      } else {
        r := WriteDirect(q, i, pa);
      }
    }

    /** Writes through the bank that answers; a locked one throws. */
    method WriteDirect(q: Request, i: nat, pa: Word) returns (r: Result)
      requires Valid() && q.intent.Store? && Scan(bus.banks, pa) == Some(i)
      modifies this`bus, this`stale
      ensures Valid() && (S(), r) == PhysAccess(dev, old(S()), q, pa)
      ensures stale == old(stale) + Moved(dev, old(bus), tablePtr, bus, tablePtr)
    {
      NothingMoved(dev, bus, tablePtr);
      if bus.banks[i].host && !bus.banks[i].writable {
        r := Threw;
      } else {
        WriteBank(i, pa, q.size, q.value);
        r := Done(q.value);
      }
    }

    method MemAccess(q: Request) returns (r: Result)
      requires Valid() && Fresh(dev, S(), stale, Mem(q))
      modifies this, itlb, dtlb, itlb.entries, dtlb.entries, dataCache, storeCache
      ensures Valid()
      ensures (S(), r) == Access(dev, old(S()), q)
      ensures stale == Stale(dev, old(stale), old(S()), Mem(q))
    {
      match q.intent {
        case Execute => r := Fetch(q);
        case Load => r := LoadData(q);
        case Store => r := StoreData(q);
      }
    }

    /** Empties the three page-pointer caches. */
    method DropLines()
      requires Valid()
      modifies this`fetchCache, dataCache, storeCache
      ensures Valid()
      ensures !fetchCache.InUse()
      ensures forall i :: 0 <= i < WAYS ==> !dataCache[i].InUse() && !storeCache[i].InUse()
    {
      fetchCache := fetchCache.(vpage := NO_PAGE);
      forall i | 0 <= i < WAYS {
        dataCache[i] := dataCache[i].(vpage := NO_PAGE);
      }
      forall i | 0 <= i < WAYS {
        storeCache[i] := storeCache[i].(vpage := NO_PAGE);
      }
    }

    method SetControlReg(v: Word)
      requires Valid()
      modifies this`control, this`fetchCache, dataCache, storeCache
      ensures Valid() && S() == old(S()).(control := v)
    {
      if v % 2 != control % 2 {
        DropLines();
      }
      control := v;
    }

    method SetCtxTblPtr(v: Word)
      requires Valid()
      modifies this`tablePtr, this`stale
      ensures Valid() && S() == old(S()).(tablePtr := v)
      ensures stale == old(stale) + Moved(dev, bus, old(tablePtr), bus, v)
    {
      ghost var p := tablePtr;
      tablePtr := v;
      Settle(bus, p);
    }

    /** Empties every cache; nothing is stale any more. */
    method FlushAll()
      requires Valid()
      modifies this`fetchCache, this`stale, itlb, dtlb, itlb.entries, dtlb.entries, dataCache, storeCache
      ensures Valid() && stale == iset{} && S() == old(S())
      ensures !fetchCache.InUse() && forall i :: 0 <= i < WAYS ==> !dataCache[i].InUse() && !storeCache[i].InUse()
    {
      DropLines();
      itlb.Flush();
      dtlb.Flush();
      stale := iset{};
    }

    /** Every operation behaves as on the uncached machine. */
    method Perform(op: Op) returns (r: Result)
      requires Valid() && Fresh(dev, S(), stale, op)
      modifies this, itlb, dtlb, itlb.entries, dtlb.entries, dataCache, storeCache
      ensures Valid()
      ensures (S(), r) == Srmmu.Step(dev, old(S()), op)
      ensures stale == Stale(dev, old(stale), old(S()), op)
    {
      NothingMoved(dev, bus, tablePtr);
      match op {
        case Mem(q) =>
          r := MemAccess(q);
        case SetControl(v) =>
          SetControlReg(v);
          r := Done(v);
        case SetTablePtr(v) =>
          SetCtxTblPtr(v);
          r := Done(v);
        case SetContext(v) =>
          ctx := v;
          r := Done(v);
        case ReadFaultStatus =>
          r := Done(fsr);
          fsr := 0;
        case BypassRead(pa) =>
          r := Bypass(pa, None);
        case BypassWrite(pa, v) =>
          r := Bypass(pa, Some(v));
        case Flush =>
          FlushAll();
          r := Done(0);
      }
    }

    /** Untranslated access to physical memory. */
    method Bypass(pa: Word, v: Option<Word>) returns (r: Result)
      requires Valid()
      modifies this`bus, this`stale
      ensures Valid()
      ensures var op := if v.None? then BypassRead(pa) else BypassWrite(pa, v.value);
              (S(), r) == Srmmu.Step(dev, old(S()), op) && stale == Stale(dev, old(stale), old(S()), op)
    {
      NothingMoved(dev, bus, tablePtr);
      var i := Scan(bus.banks, pa);
      if i.None? {
        r := Done(if v.None? then 0 else v.value);
      } else if v.None? {
        var w := ReadBank(i.value, pa, 4);
        r := Done(w);
      } else if bus.banks[i.value].host && !bus.banks[i.value].writable {
        r := Threw;
      } else {
        WriteBank(i.value, pa, 4, v.value);
        r := Done(v.value);
      }
    }

    /** Whole runs: with any mix of fetches, loads, stores, bypass accesses, context and table
        switches, enabling, disabling and flushes that keeps to the flush discipline, the cached MMU
        gives the results of the uncached one and leaves the same registers and memory. */
    method RunAll(ops: seq<Op>) returns (rs: seq<Result>)
      requires Valid() && Disciplined(dev, S(), stale, ops)
      modifies this, itlb, dtlb, itlb.entries, dtlb.entries, dataCache, storeCache
      ensures Valid()
      ensures (S(), rs) == Srmmu.Run(dev, old(S()), ops)
      decreases |ops|
    {
      if ops == [] {
        return [];
      }
      var r := Perform(ops[0]);
      rs := RunAll(ops[1..]);
      rs := [r] + rs;
    }
  }
}
