/** The SPARC reference MMU without any cache: every access walks the three-level table and
    checks permissions. This is what the cached MMU of module `Mmu` has to agree with. */
module Srmmu {
  import opened Words
  import opened Banks

  datatype Intent = Load | Store | Execute

  /** Peripherals answer according to the whole history of accesses made to them. */
  datatype DevEvent = DevRead(addr: Word, size: Size) | DevWrite(addr: Word, size: Size, value: Word)
  type Device = (seq<DevEvent>, Word, Size) -> Word

  datatype Bus = Bus(banks: seq<Bank>, log: seq<DevEvent>)

  datatype State = State(control: Word, tablePtr: Word, ctx: Word, fsr: Word, far: Word, bus: Bus) {
    predicate Enabled() { control % 2 == 1 }
  }

  datatype Result = Done(value: Word) | Fault(code: int) | Threw

  /* Page table walk */

  datatype Walked = Walked(pte: Word, level: nat)

  /** A page-table word; an undecoded address reads as 0. */
  function TableWord(dev: Device, bus: Bus, pa: Word): Word {
    match Scan(bus.banks, pa)
    case None => 0
    case Some(i) => if bus.banks[i].host then BankRead(bus.banks[i], pa, 4) else dev(bus.log, pa, 4)
  }

  function EntryAddr(ptd: Word, index: nat): Word {
    (ptd / 4 * 64 + index * 4) % 0x1_0000_0000
  }

  function Walk(dev: Device, bus: Bus, tablePtr: Word, ctx: Word, va: Word): Walked {
    var root := TableWord(dev, bus, (tablePtr * 16 + ctx * 4) % 0x1_0000_0000);
    if root % 4 != 1 then Walked(root, 0)
    else
      var l1 := TableWord(dev, bus, EntryAddr(root, va / 0x100_0000));
      if l1 % 4 != 1 then Walked(l1, 1)
      else
        var l2 := TableWord(dev, bus, EntryAddr(l1, va / 0x4_0000 % 64));
        if l2 % 4 != 1 then Walked(l2, 2)
        else Walked(TableWord(dev, bus, EntryAddr(l2, va / 0x1000 % 64)), 3)
  }

  function LevelMask(level: nat): Word
    requires 1 <= level <= 3
  {
    if level == 3 then 0xFFFF_F000 else if level == 2 then 0xFFFC_0000 else 0xFF00_0000
  }

  predicate IsPte(pte: Word) { pte % 4 == 2 }

  function RegionSize(level: nat): (r: nat)
    requires 1 <= level <= 3
    ensures r > 0
  {
    if level == 3 then 0x1000 else if level == 2 then 0x4_0000 else 0x100_0000
  }

  /** Masking at a level selects the region number at that level. */
  lemma MaskIsRegion(level: nat, va: Word)
    requires 1 <= level <= 3
    ensures BitAnd(va, LevelMask(level)) == va / RegionSize(level) * RegionSize(level)
  {
    Pow2Values();
    BitAndHighMask(32, if level == 3 then 12 else if level == 2 then 18 else 24, va);
  }

  lemma SameMaskSameIndices(level: nat, va: Word, va': Word)
    requires 1 <= level <= 3
    ensures BitAnd(va, LevelMask(level)) == BitAnd(va', LevelMask(level)) <==>
            va / RegionSize(level) == va' / RegionSize(level)
  {
    MaskIsRegion(level, va);
    MaskIsRegion(level, va');
  }

  lemma CoarserIndices(va: Word)
    ensures va / 0x4_0000 == va / 0x1000 / 64 && va / 0x100_0000 == va / 0x4_0000 / 64
  {
  }

  /** A walk that ends at level L ends the same way for every address sharing the level-L mask. */
  lemma WalkIsRegional(dev: Device, bus: Bus, tablePtr: Word, ctx: Word, va: Word, va': Word)
    requires Walk(dev, bus, tablePtr, ctx, va).level >= 1
    requires var m := LevelMask(Walk(dev, bus, tablePtr, ctx, va).level); BitAnd(va, m) == BitAnd(va', m)
    ensures Walk(dev, bus, tablePtr, ctx, va') == Walk(dev, bus, tablePtr, ctx, va)
  {
    var level := Walk(dev, bus, tablePtr, ctx, va).level;
    SameMaskSameIndices(level, va, va');
    CoarserIndices(va);
    CoarserIndices(va');
  }

  lemma SamePageSameRegion(level: nat, va: Word, va': Word)
    requires 1 <= level <= 3 && va / 0x1000 == va' / 0x1000
    ensures BitAnd(va, LevelMask(level)) == BitAnd(va', LevelMask(level))
  {
    SameMaskSameIndices(level, va, va');
    CoarserIndices(va);
    CoarserIndices(va');
  }

  /* Permissions */

  /** Supervisor accesses are odd, and the three intents are loads, executes and stores in turn. */
  function AccessType(intent: Intent, super: bool): (at: nat)
    ensures at < 6 && (at % 2 == 1 <==> super)
    ensures (at / 2 == 0 <==> intent.Load?) && (at / 2 == 1 <==> intent.Execute?) && (at / 2 == 2 <==> intent.Store?)
  {
    match intent
    case Load => if super then 1 else 0
    case Execute => if super then 3 else 2
    case Store => if super then 5 else 4
  }

  /** The fault type for an access; 0 means it is allowed. */
  function FaultType(pte: Word, level: nat, at: nat): (ft: nat)
    requires at < 8
    ensures ft <= 4
  {
    var acc := pte / 4 % 8;
    var et := pte % 4;
    var ft := if (et == 1 && level == 3) || et == 3 then 4 else 0;
    if et == 0 then 1
    else if at == 0 then
      if acc == 6 || acc == 7 then 3 else if acc == 4 then 2 else ft
    else if at == 1 then
      if acc == 4 then 2 else ft
    else if at == 2 then
      if acc == 6 || acc == 7 then 3 else if acc == 0 || acc == 1 || acc == 5 then 2 else ft
    else if at == 3 then
      if acc == 0 || acc == 1 || acc == 5 then 2 else ft
    else if at == 4 then
      if acc == 6 || acc == 7 then 3 else if acc == 0 || acc == 2 || acc == 4 || acc == 5 then 2 else ft
    else if at == 5 then
      if acc == 0 || acc == 2 || acc == 4 || acc == 6 then 2 else ft
    else if at == 6 then
      if acc == 6 || acc == 7 then 3 else if acc == 0 || acc == 1 || acc == 2 || acc == 4 || acc == 5 then 2 else ft
    else
      if acc == 0 || acc == 1 || acc == 2 || acc == 4 || acc == 5 || acc == 6 then 2 else ft
  }

  /** The rights an ACC value grants in each mode, as the access table of Appendix H lists them. */
  datatype Rights = Rights(read: bool, write: bool, execute: bool)

  function RightsOf(acc: nat, super: bool): Rights {
    if acc == 0 then Rights(true, false, false)
    else if acc == 1 then Rights(true, true, false)
    else if acc == 2 then Rights(true, false, true)
    else if acc == 3 then Rights(true, true, true)
    else if acc == 4 then Rights(false, false, true)
    else if acc == 5 then Rights(true, super, false)
    else if acc == 6 then Rights(super, false, super)
    else Rights(super, super, super)
  }

  /** Access types come in user and supervisor pairs: load, execute, store to data, store to instructions. */
  predicate Permitted(acc: nat, at: nat) {
    var r := RightsOf(acc, at % 2 == 1);
    if at / 2 == 0 then r.read
    else if at / 2 == 1 then r.execute
    else if at / 2 == 2 then r.write
    else r.write && r.execute
  }

  /** A valid PTE allows exactly what the rights of the mode grant; a refusal is a privilege violation exactly
      when the mode has no rights at all. An invalid entry is an invalid address. */
  lemma FaultTypeExact(pte: Word, level: nat, at: nat)
    requires at < 8
    ensures FaultType(pte, level, at) == 1 <==> pte % 4 == 0
    ensures pte % 4 == 2 ==>
              && (FaultType(pte, level, at) == 0 <==> Permitted(pte / 4 % 8, at))
              && (FaultType(pte, level, at) == 3 <==> RightsOf(pte / 4 % 8, at % 2 == 1) == Rights(false, false, false))
  {
    var acc := pte / 4 % 8;
    if acc == 0 {} else if acc == 1 {} else if acc == 2 {} else if acc == 3 {}
    else if acc == 4 {} else if acc == 5 {} else if acc == 6 {} else {}
  }

  /** For each ACC value, the bit mask of access types it allows. */
  const PERM_OK: seq<nat> := [0x03, 0x33, 0x0F, 0xFF, 0x0C, 0x23, 0x0A, 0xAA]

  predicate PermOk(pte: Word, at: nat)
    requires at < 8
  {
    PERM_OK[pte / 4 % 8] / (if at == 0 then 1 else if at == 1 then 2 else if at == 2 then 4 else if at == 3 then 8
                            else if at == 4 then 16 else if at == 5 then 32 else if at == 6 then 64 else 128) % 2 == 1
  }

  /** The bit-mask table decides exactly as the case analysis, for every PTE, level and access type. */
  lemma PermTableExact(pte: Word, level: nat, at: nat)
    requires at < 8 && IsPte(pte)
    ensures PermOk(pte, at) <==> FaultType(pte, level, at) == 0
  {
    var acc := pte / 4 % 8;
    if acc == 0 {} else if acc == 1 {} else if acc == 2 {} else if acc == 3 {}
    else if acc == 4 {} else if acc == 5 {} else if acc == 6 {} else {}
  }

  /* Translation */

  datatype Translation = Mapped(pa: Word, level: nat, pte: Word) | Denied(ft: int, level: nat) | Refused

  function PhysPage(pte: Word, level: nat, vpage: nat): (page: nat)
    requires vpage < 0x10_0000
    ensures page < 0x10_0000
  {
    var index := if level == 3 then 0
                 else if level == 2 then vpage % 0x40
                 else if level == 1 then vpage % 0x1000
                 else vpage;
    var ppn := pte / 0x100 % 0x10_0000;
    Pow2Values();
    BitWidth(20, index, ppn);
    BitOr(index, ppn)
  }

  function PhysAddr(pte: Word, level: nat, va: Word): Word {
    PhysPage(pte, level, va / 0x1000) * 0x1000 + va % 0x1000
  }

  /** The emulator refuses (throws on) context numbers above 255 and a PTE in the context table. */
  function Translate(dev: Device, bus: Bus, tablePtr: Word, ctx: Word, va: Word, super: bool, intent: Intent)
    : Translation
  {
    if ctx > 255 then Refused
    else
      var w := Walk(dev, bus, tablePtr, ctx, va);
      if IsPte(w.pte) && w.level == 0 then Refused
      else
        var ft := FaultType(w.pte, w.level, AccessType(intent, super));
        if ft != 0 then Denied(ft, w.level) else Mapped(PhysAddr(w.pte, w.level, va), w.level, w.pte)
  }

  /** Only a valid entry translates. */
  lemma MappedIsPte(dev: Device, bus: Bus, tablePtr: Word, ctx: Word, va: Word, super: bool, intent: Intent)
    requires Translate(dev, bus, tablePtr, ctx, va, super, intent).Mapped?
    ensures IsPte(Walk(dev, bus, tablePtr, ctx, va).pte)
  {
  }

  lemma WalkIsPaged(dev: Device, bus: Bus, tablePtr: Word, ctx: Word, va: Word, va': Word)
    requires va / 0x1000 == va' / 0x1000
    ensures Walk(dev, bus, tablePtr, ctx, va) == Walk(dev, bus, tablePtr, ctx, va')
  {
    var w := Walk(dev, bus, tablePtr, ctx, va);
    if w.level >= 1 {
      SamePageSameRegion(w.level, va, va');
      WalkIsRegional(dev, bus, tablePtr, ctx, va, va');
    }
  }

  lemma PhysAddrParts(pte: Word, level: nat, va: Word)
    ensures PhysAddr(pte, level, va) / 0x1000 == PhysPage(pte, level, va / 0x1000)
    ensures PhysAddr(pte, level, va) % 0x1000 == va % 0x1000
  {
  }

  /** Two addresses in one virtual page translate alike, into one physical page. */
  lemma TranslateIsPaged(dev: Device, bus: Bus, tablePtr: Word, ctx: Word,
                         va: Word, va': Word, super: bool, intent: Intent)
    requires va / 0x1000 == va' / 0x1000
    ensures var t, t' := Translate(dev, bus, tablePtr, ctx, va, super, intent),
                         Translate(dev, bus, tablePtr, ctx, va', super, intent);
            if t.Mapped? then t'.Mapped? && t' == t.(pa := t'.pa) && t.pa / 0x1000 == t'.pa / 0x1000
                                && t.pa % 0x1000 == va % 0x1000 && t'.pa % 0x1000 == va' % 0x1000
            else t' == t
  {
    var w := Walk(dev, bus, tablePtr, ctx, va);
    WalkIsPaged(dev, bus, tablePtr, ctx, va, va');
    PhysAddrParts(w.pte, w.level, va);
    PhysAddrParts(w.pte, w.level, va');
  }

  /* Where a walk goes */

  /** The four fields of an address: three table indices and the offset in the page. */
  predicate Fields(va: Word, i1: nat, i2: nat, i3: nat, off: nat) {
    && i1 < 256 && i2 < 64 && i3 < 64 && off < 0x1000
    && va == i1 * 0x100_0000 + i2 * 0x4_0000 + i3 * 0x1000 + off
  }

  lemma FieldIndices(va: Word, i1: nat, i2: nat, i3: nat, off: nat)
    requires Fields(va, i1, i2, i3, off)
    ensures va / 0x100_0000 == i1 && va / 0x4_0000 % 64 == i2 && va / 0x1000 % 64 == i3 && va % 0x1000 == off
    ensures va / 0x1000 % 0x1000 == i2 * 64 + i3
  {
    DivUnique(va, 0x1000, i1 * 0x1000 + i2 * 64 + i3, off);
    DivUnique(va, 0x4_0000, i1 * 64 + i2, i3 * 0x1000 + off);
    DivUnique(va, 0x100_0000, i1, i2 * 0x4_0000 + i3 * 0x1000 + off);
    DivUnique(i1 * 64 + i2, 64, i1, i2);
    DivUnique(i1 * 0x1000 + i2 * 64 + i3, 64, i1 * 64 + i2, i3);
    DivUnique(i1 * 0x1000 + i2 * 64 + i3, 0x1000, i1, i2 * 64 + i3);
  }

  /** Memory holds the word at an address, counted modulo 2^32. */
  ghost predicate Holds(dev: Device, bus: Bus, at: int, word: Word) {
    TableWord(dev, bus, at % 0x1_0000_0000) == word
  }

  /** A descriptor points to a table of words 16 times its value, less its tag, on. */
  ghost predicate Entry(dev: Device, bus: Bus, ptd: Word, index: nat, word: Word) {
    ptd % 4 == 1 && Holds(dev, bus, (ptd - 1) * 16 + 4 * index, word)
  }

  lemma EntryHolds(dev: Device, bus: Bus, ptd: Word, index: nat, word: Word)
    requires Entry(dev, bus, ptd, index, word)
    ensures TableWord(dev, bus, EntryAddr(ptd, index)) == word
  {
    assert ptd / 4 * 64 == (ptd - 1) * 16;
  }

  /** The words a walk comes through: in the context table, at level 1 and at level 2. */
  datatype Path = Path(root: Word, l1: Word, l2: Word)

  ghost predicate LeadsOn(dev: Device, bus: Bus, p: Path, i2: nat, i3: nat, level: nat, pte: Word) {
    if level == 1 then pte == p.l1
    else if level == 2 then Entry(dev, bus, p.l1, i2, pte)
    else level == 3 && Entry(dev, bus, p.l1, i2, p.l2) && Entry(dev, bus, p.l2, i3, pte)
  }

  /** The table leads to `pte`: through a descriptor in the context table and one in each table below, down to level
      `level`, each picked by its field of the address. */
  ghost predicate Leads(dev: Device, bus: Bus, ptr: Word, ctx: Word, p: Path, i1: nat, i2: nat, i3: nat,
                        level: nat, pte: Word) {
    && Holds(dev, bus, ptr * 16 + ctx * 4, p.root) && Entry(dev, bus, p.root, i1, p.l1)
    && LeadsOn(dev, bus, p, i2, i3, level, pte)
  }

  /** The walk below the first table. */
  function WalkOn(dev: Device, bus: Bus, l1: Word, va: Word): Walked {
    if l1 % 4 != 1 then Walked(l1, 1)
    else
      var l2 := TableWord(dev, bus, EntryAddr(l1, va / 0x4_0000 % 64));
      if l2 % 4 != 1 then Walked(l2, 2)
      else Walked(TableWord(dev, bus, EntryAddr(l2, va / 0x1000 % 64)), 3)
  }

  lemma WalkOnFollows(dev: Device, bus: Bus, p: Path, va: Word, i2: nat, i3: nat, level: nat, pte: Word)
    requires va / 0x4_0000 % 64 == i2 && va / 0x1000 % 64 == i3
    requires LeadsOn(dev, bus, p, i2, i3, level, pte) && pte % 4 != 1
    ensures WalkOn(dev, bus, p.l1, va) == Walked(pte, level) && 1 <= level <= 3
  {
    if level == 2 {
      EntryHolds(dev, bus, p.l1, i2, pte);
    } else if level == 3 {
      EntryHolds(dev, bus, p.l1, i2, p.l2);
      EntryHolds(dev, bus, p.l2, i3, pte);
    }
  }

  lemma WalkFrom(dev: Device, bus: Bus, ptr: Word, ctx: Word, va: Word, root: Word, l1: Word)
    requires TableWord(dev, bus, (ptr * 16 + ctx * 4) % 0x1_0000_0000) == root && root % 4 == 1
    requires TableWord(dev, bus, EntryAddr(root, va / 0x100_0000)) == l1
    ensures Walk(dev, bus, ptr, ctx, va) == WalkOn(dev, bus, l1, va)
  {
  }

  /** A walk ends where the table leads. */
  lemma WalkFollows(dev: Device, bus: Bus, ptr: Word, ctx: Word, va: Word, p: Path,
                    i1: nat, i2: nat, i3: nat, off: nat, level: nat, pte: Word)
    requires Fields(va, i1, i2, i3, off) && Leads(dev, bus, ptr, ctx, p, i1, i2, i3, level, pte) && pte % 4 != 1
    ensures Walk(dev, bus, ptr, ctx, va) == Walked(pte, level) && 1 <= level <= 3
  {
    FieldIndices(va, i1, i2, i3, off);
    WalkByIndices(dev, bus, ptr, ctx, va, p, i1, i2, i3, level, pte);
  }

  lemma WalkByIndices(dev: Device, bus: Bus, ptr: Word, ctx: Word, va: Word, p: Path,
                      i1: nat, i2: nat, i3: nat, level: nat, pte: Word)
    requires va / 0x100_0000 == i1 && va / 0x4_0000 % 64 == i2 && va / 0x1000 % 64 == i3
    requires Leads(dev, bus, ptr, ctx, p, i1, i2, i3, level, pte) && pte % 4 != 1
    ensures Walk(dev, bus, ptr, ctx, va) == Walked(pte, level) && 1 <= level <= 3
  {
    EntryHolds(dev, bus, p.root, i1, p.l1);
    WalkFrom(dev, bus, ptr, ctx, va, p.root, p.l1);
    WalkOnFollows(dev, bus, p, va, i2, i3, level, pte);
  }

  /** The part of the address below the region of the level: it is kept. */
  function Within(i2: nat, i3: nat, off: nat, level: nat): nat {
    if level == 3 then off else if level == 2 then i3 * 0x1000 + off else (i2 * 64 + i3) * 0x1000 + off
  }

  /** A frame that is aligned to the region of the level. */
  predicate AlignedFrame(frame: nat, level: nat) {
    level == 3 || (level == 2 && frame % 64 == 0) || (level == 1 && frame % 0x1000 == 0)
  }

  lemma FrameAddress(pte: Word, va: Word, i1: nat, i2: nat, i3: nat, off: nat, level: nat)
    requires Fields(va, i1, i2, i3, off) && 1 <= level <= 3 && AlignedFrame(pte / 0x100 % 0x10_0000, level)
    ensures PhysAddr(pte, level, va) == pte / 0x100 % 0x10_0000 * 0x1000 + Within(i2, i3, off, level)
  {
    FieldIndices(va, i1, i2, i3, off);
    var frame := pte / 0x100 % 0x10_0000;
    Pow2Values();
    assert Pow2(6) == 64;
    if level == 2 {
      BitOrAdds(6, i3, frame);
    } else if level == 1 {
      BitOrAdds(12, i2 * 64 + i3, frame);
    }
    FrameParts(pte, level, va);
  }

  lemma FrameParts(pte: Word, level: nat, va: Word)
    requires 1 <= level <= 3
    ensures level == 3 ==> PhysPage(pte, level, va / 0x1000) == pte / 0x100 % 0x10_0000
    ensures level == 2 ==> PhysPage(pte, level, va / 0x1000) == BitOr(va / 0x1000 % 0x40, pte / 0x100 % 0x10_0000)
    ensures level == 1 ==> PhysPage(pte, level, va / 0x1000) == BitOr(va / 0x1000 % 0x1000, pte / 0x100 % 0x10_0000)
  {
  }

  /** What software that sets up a page table may count on: an access its PTE permits reaches the frame, at the place
      its address has in the region. */
  lemma AccessReaches(dev: Device, s: State, q: Request, p: Path,
                      i1: nat, i2: nat, i3: nat, off: nat, level: nat, pte: Word)
    requires s.Enabled() && s.ctx <= 255 && Fields(q.va, i1, i2, i3, off)
    requires Leads(dev, s.bus, s.tablePtr, s.ctx, p, i1, i2, i3, level, pte) && pte % 4 == 2
    requires Permitted(pte / 4 % 8, AccessType(q.intent, q.super)) && AlignedFrame(pte / 0x100 % 0x10_0000, level)
    ensures var pa := pte / 0x100 % 0x10_0000 * 0x1000 + Within(i2, i3, off, level);
            pa < 0x1_0000_0000 && Access(dev, s, q) == PhysAccess(dev, s, q, pa)
  {
    WalkFollows(dev, s.bus, s.tablePtr, s.ctx, q.va, p, i1, i2, i3, off, level, pte);
    FaultTypeExact(pte, level, AccessType(q.intent, q.super));
    FrameAddress(pte, q.va, i1, i2, i3, off, level);
  }

  /** And one it does not permit changes nothing but, if faults are reported, the fault registers: they name the
      address, the level, the access and the fault, which is a protection error, or a privilege violation if the mode
      has no rights at all. */
  lemma AccessDenied(dev: Device, s: State, q: Request, p: Path,
                     i1: nat, i2: nat, i3: nat, off: nat, level: nat, pte: Word)
    requires s.Enabled() && s.ctx <= 255 && Fields(q.va, i1, i2, i3, off)
    requires Leads(dev, s.bus, s.tablePtr, s.ctx, p, i1, i2, i3, level, pte)
    requires pte % 4 == 0 || (pte % 4 == 2 && !Permitted(pte / 4 % 8, AccessType(q.intent, q.super)))
    ensures !q.report ==> Access(dev, s, q) == (s, Fault(-1))
    ensures q.report ==>
              var (s', r) := Access(dev, s, q);
              var ft := s'.fsr / 4 % 8;
              && s' == s.(fsr := s'.fsr, far := q.va) && r == Fault(-ft)
              && s'.fsr / 0x100 == level && s'.fsr / 0x20 % 8 == AccessType(q.intent, q.super) && s'.fsr % 4 == 2
              && (ft == 1 <==> pte % 4 == 0) && 1 <= ft <= 3
              && (ft == 3 <==> pte % 4 == 2 && RightsOf(pte / 4 % 8, q.super) == Rights(false, false, false))
  {
    var at := AccessType(q.intent, q.super);
    WalkFollows(dev, s.bus, s.tablePtr, s.ctx, q.va, p, i1, i2, i3, off, level, pte);
    FaultTypeExact(pte, level, at);
    DenialType(pte, level, at);
    FaultStatusFields(level, at, FaultType(pte, level, at));
    DeniedAccess(dev, s, q, pte, level);
  }

  lemma DeniedAccess(dev: Device, s: State, q: Request, pte: Word, level: nat)
    requires s.Enabled() && s.ctx <= 255 && level > 0
    requires Walk(dev, s.bus, s.tablePtr, s.ctx, q.va) == Walked(pte, level)
    requires FaultType(pte, level, AccessType(q.intent, q.super)) != 0
    ensures var at := AccessType(q.intent, q.super); var ft: int := FaultType(pte, level, at);
            Access(dev, s, q) == if q.report then (s.(fsr := FaultStatus(level, at, ft), far := q.va), Fault(-ft))
                                 else (s, Fault(-1))
  {
  }

  lemma DenialType(pte: Word, level: nat, at: nat)
    requires at < 8 && (pte % 4 == 0 || (pte % 4 == 2 && !Permitted(pte / 4 % 8, at)))
    ensures 1 <= FaultType(pte, level, at) <= 3
  {
    FaultTypeExact(pte, level, at);
  }

  lemma FaultStatusFields(level: nat, at: nat, ft: int)
    requires level < 4 && at < 8 && 0 <= ft < 8
    ensures var f := FaultStatus(level, at, ft);
            f / 0x100 == level && f / 0x20 % 8 == at && f / 4 % 8 == ft && f % 4 == 2
  {
    assert level % 4 == level && at % 8 == at && ft % 8 == ft;
    FieldsApart(level, at, ft);
  }

  lemma FieldsApart(level: nat, at: nat, ft: nat)
    requires level < 4 && at < 8 && ft < 8
    ensures var f := level * 0x100 + at * 0x20 + ft * 4 + 2;
            f / 0x100 == level && f / 0x20 % 8 == at && f / 4 % 8 == ft && f % 4 == 2
  {
    var f: int := level * 0x100 + at * 0x20 + ft * 4 + 2;
    DivUnique(f, 0x100, level, at * 0x20 + ft * 4 + 2);
    DivUnique(f, 0x20, level * 8 + at, ft * 4 + 2);
    DivUnique(f, 4, level * 0x40 + at * 8 + ft, 2);
    DivUnique(level * 8 + at, 8, level, at);
    DivUnique(level * 0x40 + at * 8 + ft, 8, level * 8 + at, ft);
  }

  /* Accesses */

  function FaultStatus(level: nat, at: nat, ft: int): Word {
    level % 4 * 0x100 + at % 8 * 0x20 + ft % 8 * 4 + 2
  }

  lemma FaultStatusKeepsType(level: nat, at: nat, ft: int)
    requires 0 <= ft < 8
    ensures FaultStatus(level, at, ft) / 4 % 8 == ft
  {
    FieldsApart(level % 4, at % 8, ft);
  }

  function RecordFault(s: State, report: bool, va: Word, level: nat, at: nat, ft: int): State {
    if report then s.(far := va, fsr := FaultStatus(level, at, ft)) else s
  }

  function BusRead(dev: Device, bus: Bus, i: nat, pa: Word, size: Size): (Word, Bus)
    requires i < |bus.banks|
  {
    if bus.banks[i].host then (BankRead(bus.banks[i], pa, size), bus)
    else (Truncate(dev(bus.log, pa, size), size), bus.(log := bus.log + [DevRead(pa, size)]))
  }

  function BusWrite(bus: Bus, i: nat, pa: Word, size: Size, v: Word): Bus
    requires i < |bus.banks|
  {
    if bus.banks[i].host then bus.(banks := bus.banks[i := BankWrite(bus.banks[i], pa, size, v)])
    else bus.(log := bus.log + [DevWrite(pa, size, Truncate(v, size))])
  }

  datatype Request = Request(intent: Intent, va: Word, size: Size, value: Word, super: bool, report: bool)

  /** The physical half of an access. A write to a locked ROM throws. */
  function PhysAccess(dev: Device, s: State, q: Request, pa: Word): (State, Result) {
    match Scan(s.bus.banks, pa)
    case None => (RecordFault(s, q.report, q.va, 0, AccessType(q.intent, q.super), 5), Fault(-5))
    case Some(i) =>
      if q.intent.Store? then
        if s.bus.banks[i].host && !s.bus.banks[i].writable then (s, Threw)
        else (s.(bus := BusWrite(s.bus, i, pa, q.size, q.value)), Done(q.value))
      else
        var (v, bus) := BusRead(dev, s.bus, i, pa, q.size);
        (s.(bus := bus), Done(v))
  }

  /** An access with no cache in the way. */
  function Access(dev: Device, s: State, q: Request): (State, Result) {
    if !s.Enabled() then PhysAccess(dev, s, q, q.va)
    else match Translate(dev, s.bus, s.tablePtr, s.ctx, q.va, q.super, q.intent)
         case Refused => (s, Threw)
         case Denied(ft, level) =>
           (RecordFault(s, q.report, q.va, level, AccessType(q.intent, q.super), ft),
            Fault(if q.report then -ft else -1))
         case Mapped(pa, _, _) => PhysAccess(dev, s, q, pa)
  }

  /** A store to RAM can be loaded back at the same physical address, and no other byte of memory changes. */
  lemma StoreThenLoad(dev: Device, s: State, st: Request, ld: Request, pa: Word, i: nat)
    requires Scan(s.bus.banks, pa) == Some(i) && s.bus.banks[i].host && s.bus.banks[i].writable
    requires st.intent.Store? && !ld.intent.Store? && ld.size == st.size
    requires pa - s.bus.banks[i].base + st.size <= |s.bus.banks[i].data|
    ensures var (s', r) := PhysAccess(dev, s, st, pa);
            && r == Done(st.value) && SameShape(s.bus.banks, s'.bus.banks) && s' == s.(bus := s'.bus)
            && s'.bus.log == s.bus.log
            && PhysAccess(dev, s', ld, pa) == (s', Done(Truncate(st.value, st.size)))
            && (forall j :: 0 <= j < |s.bus.banks| && j != i ==> s'.bus.banks[j] == s.bus.banks[j])
            && forall k :: (&& 0 <= k < |s.bus.banks[i].data|
                            && !(pa - s.bus.banks[i].base <= k < pa - s.bus.banks[i].base + st.size)) ==>
                             s'.bus.banks[i].data[k] == s.bus.banks[i].data[k]
  {
    var b := s.bus.banks[i];
    BankRoundTrip(b, pa, st.size, st.value);
    var c := BankWrite(b, pa, st.size, st.value);
    ScanShape(s.bus.banks, s.bus.banks[i := c], pa);
  }

  /** A table word is what a load of it would give; a word no bank answers for is 0. */
  lemma TableWordIsLoad(dev: Device, s: State, q: Request, pa: Word)
    requires !q.intent.Store? && q.size == 4
    ensures if Scan(s.bus.banks, pa).Some? then PhysAccess(dev, s, q, pa).1 == Done(TableWord(dev, s.bus, pa))
            else TableWord(dev, s.bus, pa) == 0
  {
  }

  /* Runs */

  datatype Op =
    | Mem(q: Request)
    | SetControl(v: Word)
    | SetTablePtr(v: Word)
    | SetContext(v: Word)
    | ReadFaultStatus
    | BypassRead(pa: Word)
    | BypassWrite(pa: Word, v: Word)
    | Flush

  function Step(dev: Device, s: State, op: Op): (State, Result) {
    match op
    case Mem(q) => Access(dev, s, q)
    case SetControl(v) => (s.(control := v), Done(v))
    case SetTablePtr(v) => (s.(tablePtr := v), Done(v))
    case SetContext(v) => (s.(ctx := v), Done(v))
    case ReadFaultStatus => (s.(fsr := 0), Done(s.fsr))
    case BypassRead(pa) =>
      (match Scan(s.bus.banks, pa)
       case None => (s, Done(0))
       case Some(i) => var (v, bus) := BusRead(dev, s.bus, i, pa, 4); (s.(bus := bus), Done(v)))
    case BypassWrite(pa, v) =>
      (match Scan(s.bus.banks, pa)
       case None => (s, Done(v))
       case Some(i) =>
         if s.bus.banks[i].host && !s.bus.banks[i].writable then (s, Threw)
         else (s.(bus := BusWrite(s.bus, i, pa, 4, v)), Done(v)))
    case Flush => (s, Done(0))
  }

  function Run(dev: Device, s: State, ops: seq<Op>): (State, seq<Result>)
    decreases |ops|
  {
    if ops == [] then (s, [])
    else
      var (s1, r) := Step(dev, s, ops[0]);
      var (s2, rs) := Run(dev, s1, ops[1..]);
      (s2, [r] + rs)
  }

  /** Bypass accesses are word accesses to physical memory, where a bank answers. */
  lemma BypassIsPhysical(dev: Device, s: State, ld: Request, st: Request, pa: Word)
    requires Scan(s.bus.banks, pa).Some? && !ld.intent.Store? && st.intent.Store? && ld.size == 4 && st.size == 4
    ensures Step(dev, s, BypassRead(pa)) == PhysAccess(dev, s, ld, pa)
    ensures Step(dev, s, BypassWrite(pa, st.value)) == PhysAccess(dev, s, st, pa)
  {
  }

  /* Side conditions under which a cached MMU can agree */

  /** The (context, address) pairs that had a valid entry whose walk differs between two machine states. */
  ghost function Moved(dev: Device, bus: Bus, ptr: Word, bus': Bus, ptr': Word): iset<(Word, Word)> {
    iset c: Word, va: Word |
      IsPte(Walk(dev, bus, ptr, c, va).pte) && Walk(dev, bus, ptr, c, va) != Walk(dev, bus', ptr', c, va) :: (c, va)
  }

  /** Pairs whose valid entry has changed since the last flush. */
  ghost function Stale(dev: Device, stale: iset<(Word, Word)>, s: State, op: Op): iset<(Word, Word)> {
    var s' := Step(dev, s, op).0;
    if op.Flush? then iset{} else stale + Moved(dev, s.bus, s.tablePtr, s'.bus, s'.tablePtr)
  }

  predicate SharesPage(b: Bank, pa: Word) {
    b.base < pa - pa % 0x1000 + 0x1000 && pa - pa % 0x1000 < b.base + b.size
  }

  /** Bank i has a buffer, and no other bank on the page of pa has one. */
  ghost predicate OnlyBuffer(banks: seq<Bank>, i: nat, pa: Word) {
    && i < |banks| && banks[i].host && SharesPage(banks[i], pa)
    && forall j :: 0 <= j < |banks| && banks[j].host && SharesPage(banks[j], pa) ==> j == i
  }

  ghost predicate NoBuffer(banks: seq<Bank>, pa: Word) {
    forall j :: 0 <= j < |banks| && SharesPage(banks[j], pa) ==> !banks[j].host
  }

  /** A buffer the fast paths may use: in their byte order, and not locked against a store. */
  predicate Plain(b: Bank, intent: Intent) {
    b.endian.Big? && (intent.Store? ==> b.writable)
  }

  /** What answers at pa is the only buffer on its page, or there is no buffer on the page. */
  ghost predicate Serves(banks: seq<Bank>, pa: Word, intent: Intent) {
    match Scan(banks, pa)
    case Some(i) => if banks[i].host then OnlyBuffer(banks, i, pa) && Plain(banks[i], intent) else NoBuffer(banks, pa)
    case None => NoBuffer(banks, pa)
  }

  ghost predicate Served(dev: Device, s: State, q: Request) {
    match Translate(dev, s.bus, s.tablePtr, s.ctx, q.va, q.super, q.intent)
    case Mapped(pa, _, _) => Serves(s.bus.banks, pa, q.intent)
    case _ => true
  }

  /** The entry of an access, if valid, is what it was at the last flush, and the context is not all ones. */
  ghost predicate Settled(s: State, stale: iset<(Word, Word)>, q: Request) {
    s.Enabled() ==> s.ctx != 0xFFFF_FFFF && (s.ctx, q.va) !in stale
  }

  /** With translation on, an access must not use the all-ones context, a valid entry that has changed since the
      last flush, or a page on which another buffer than its own may answer. */
  ghost predicate Fresh(dev: Device, s: State, stale: iset<(Word, Word)>, op: Op) {
    op.Mem? ==> Settled(s, stale, op.q) && (s.Enabled() ==> Served(dev, s, op.q))
  }

  /** An entry that is installed where there was none needs no flush: a fault can be repaired and retried. */
  lemma InstallNeedsNoFlush(dev: Device, s: State, stale: iset<(Word, Word)>, op: Op, va: Word)
    requires (s.ctx, va) !in stale && !IsPte(Walk(dev, s.bus, s.tablePtr, s.ctx, va).pte)
    ensures (s.ctx, va) !in Stale(dev, stale, s, op)
  {
  }

  ghost predicate Disciplined(dev: Device, s: State, stale: iset<(Word, Word)>, ops: seq<Op>)
    decreases |ops|
  {
    ops != [] ==>
      Fresh(dev, s, stale, ops[0]) && Disciplined(dev, Step(dev, s, ops[0]).0, Stale(dev, stale, s, ops[0]), ops[1..])
  }
}
