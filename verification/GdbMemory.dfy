/** The debugger stub's memory packets: hex text in and out of guest memory, one byte at a time through a
    cached 32-bit word. */
module GdbMemory {
  import opened Words
  import Banks
  import Srmmu

  /* Bytes of a word, counted from the most significant */

  function Unit(k: nat): (p: nat)
    ensures p > 0
  {
    if k == 0 then 0x100_0000 else if k == 1 then 0x1_0000 else if k == 2 then 0x100 else 1
  }

  function ByteOf(w: Word, k: nat): Byte {
    w / Unit(k) % 0x100
  }

  lemma SpliceFits(w: Word, b: Byte)
    ensures b * 0x100_0000 + w % 0x100_0000 < 0x1_0000_0000
    ensures w / 0x100_0000 * 0x100_0000 + b * 0x1_0000 + w % 0x1_0000 < 0x1_0000_0000
    ensures w / 0x1_0000 * 0x1_0000 + b * 0x100 + w % 0x100 < 0x1_0000_0000
    ensures w / 0x100 * 0x100 + b < 0x1_0000_0000
  {
    assert w / 0x100_0000 < 0x100 && w / 0x1_0000 < 0x1_0000 && w / 0x100 < 0x100_0000;
  }

  /** The word with byte k replaced by masking it out and or-ing the new byte in. */
  function Splice(w: Word, k: nat, b: Byte): Word {
    SpliceFits(w, b);
    if k == 0 then b * 0x100_0000 + w % 0x100_0000
    else if k == 1 then w / 0x100_0000 * 0x100_0000 + b * 0x1_0000 + w % 0x1_0000
    else if k == 2 then w / 0x1_0000 * 0x1_0000 + b * 0x100 + w % 0x100
    else w / 0x100 * 0x100 + b
  }

  function Join(b0: Byte, b1: Byte, b2: Byte, b3: Byte): Word {
    b0 * 0x100_0000 + b1 * 0x1_0000 + b2 * 0x100 + b3
  }

  lemma JoinParts(b0: Byte, b1: Byte, b2: Byte, b3: Byte)
    ensures var w := Join(b0, b1, b2, b3);
            ByteOf(w, 0) == b0 && ByteOf(w, 1) == b1 && ByteOf(w, 2) == b2 && ByteOf(w, 3) == b3
  {
    var w := Join(b0, b1, b2, b3);
    DivUnique(w, 0x100_0000, b0, b1 * 0x1_0000 + b2 * 0x100 + b3);
    DivUnique(w, 0x1_0000, b0 * 0x100 + b1, b2 * 0x100 + b3);
    DivUnique(w, 0x100, b0 * 0x1_0000 + b1 * 0x100 + b2, b3);
    DivUnique(b0 * 0x100 + b1, 0x100, b0, b1);
    DivUnique(b0 * 0x1_0000 + b1 * 0x100 + b2, 0x100, b0 * 0x100 + b1, b2);
  }

  lemma JoinSpliced(b0: Byte, b1: Byte, b2: Byte, b3: Byte, b: Byte)
    ensures var w := Join(b0, b1, b2, b3);
            && Splice(w, 0, b) == Join(b, b1, b2, b3) && Splice(w, 1, b) == Join(b0, b, b2, b3)
            && Splice(w, 2, b) == Join(b0, b1, b, b3) && Splice(w, 3, b) == Join(b0, b1, b2, b)
  {
    var w := Join(b0, b1, b2, b3);
    DivUnique(w, 0x100_0000, b0, b1 * 0x1_0000 + b2 * 0x100 + b3);
    DivUnique(w, 0x1_0000, b0 * 0x100 + b1, b2 * 0x100 + b3);
    DivUnique(w, 0x100, b0 * 0x1_0000 + b1 * 0x100 + b2, b3);
  }

  lemma Joined(w: Word)
    ensures w == Join(ByteOf(w, 0), ByteOf(w, 1), ByteOf(w, 2), ByteOf(w, 3))
  {
    assert w / 0x1_0000 / 0x100 == w / 0x100_0000;
    assert w / 0x100 / 0x100 == w / 0x1_0000;
  }

  /** Splicing changes one byte and no other. */
  lemma SpliceAt(w: Word, k: nat, b: Byte, j: nat)
    requires k < 4 && j < 4
    ensures ByteOf(Splice(w, k, b), j) == if j == k then b else ByteOf(w, j)
  {
    var b0, b1, b2, b3 := ByteOf(w, 0), ByteOf(w, 1), ByteOf(w, 2), ByteOf(w, 3);
    Joined(w);
    JoinSpliced(b0, b1, b2, b3, b);
    JoinParts(b, b1, b2, b3);
    JoinParts(b0, b, b2, b3);
    JoinParts(b0, b1, b, b3);
    JoinParts(b0, b1, b2, b);
  }

  /* Guest memory as the debugger reaches it */

  /** Guest words by aligned address, and where each aligned debugger address lands among them: more than
      one may land on the same word. */
  datatype Space = Space(lands: map<Word, Word>, words: map<Word, Word>) {
    predicate Reaches(va: Word) {
      va in lands && lands[va] in words
    }
  }

  /** The address of the ith byte from addr on. */
  function Target(addr: Word, i: nat): Word {
    (addr + i) % 0x1_0000_0000
  }

  /** It is i further on, modulo 2^32. */
  lemma TargetIsOn(addr: Word, i: nat)
    ensures Target(addr, 0) == addr
    ensures Target(addr, i + 1) == if Target(addr, i) == 0xFFFF_FFFF then 0 else Target(addr, i) + 1
  {
  }

  /** The debugger's byte k of a word is the byte the guest loads k further on. */
  lemma GuestByte(b: Banks.Bank, pa: Word, k: nat)
    requires b.endian.Big? && k < 4 && pa + k < 0x1_0000_0000
    ensures Banks.BankRead(b, pa + k, 1) == ByteOf(Banks.BankRead(b, pa, 4), k)
  {
    var off := pa - b.base;
    var b0, b1 := Banks.ByteAt(b.data, off), Banks.ByteAt(b.data, off + 1);
    var b2, b3 := Banks.ByteAt(b.data, off + 2), Banks.ByteAt(b.data, off + 3);
    assert Banks.BankRead(b, pa, 4) == Join(b0, b1, b2, b3);
    assert Banks.BankRead(b, pa + k, 1) == if k == 0 then b0 else if k == 1 then b1 else if k == 2 then b2 else b3;
    JoinByte(b0, b1, b2, b3, k);
  }

  lemma JoinByte(b0: Byte, b1: Byte, b2: Byte, b3: Byte, k: nat)
    requires k < 4
    ensures ByteOf(Join(b0, b1, b2, b3), k) == if k == 0 then b0 else if k == 1 then b1 else if k == 2 then b2 else b3
  {
    JoinParts(b0, b1, b2, b3);
  }

  function Aligned(t: Word): Word {
    t - t % 4
  }

  lemma NotOnes(t: Word)
    ensures Aligned(t) != 0xFFFF_FFFF
  {
  }

  predicate Readable(s: Space, addr: Word, n: nat) {
    n == 0 || (Readable(s, addr, n - 1) && s.Reaches(Aligned(Target(addr, n - 1))))
  }

  /** The byte at an address. */
  function Peek(s: Space, t: Word): Byte {
    if s.Reaches(Aligned(t)) then ByteOf(s.words[s.lands[Aligned(t)]], t % 4) else 0
  }

  /** Memory after storing one byte. */
  function Poke(s: Space, t: Word, b: Byte): Space {
    if s.Reaches(Aligned(t)) then
      var pa := s.lands[Aligned(t)];
      s.(words := s.words[pa := Splice(s.words[pa], t % 4, b)])
    else s
  }

  /** The bytes at addr, and memory after storing bytes there one by one. */
  function PeekAll(s: Space, addr: Word, n: nat): (r: seq<Byte>)
    ensures |r| == n
  {
    if n == 0 then [] else PeekAll(s, addr, n - 1) + [Peek(s, Target(addr, n - 1))]
  }

  function PokeAll(s: Space, addr: Word, bytes: seq<Byte>): (r: Space)
    ensures r.lands == s.lands && r.words.Keys == s.words.Keys
  {
    if bytes == [] then s
    else Poke(PokeAll(s, addr, bytes[..|bytes| - 1]), Target(addr, |bytes| - 1), bytes[|bytes| - 1])
  }

  lemma {:induction false} ReadablePrefix(s: Space, addr: Word, n: nat, k: nat)
    requires k <= n && Readable(s, addr, n)
    ensures Readable(s, addr, k)
  {
    if k < n {
      ReadablePrefix(s, addr, n - 1, k);
    }
  }

  predicate SameWord(s: Space, t: Word, u: Word) {
    Aligned(t) in s.lands && Aligned(u) in s.lands && s.lands[Aligned(t)] == s.lands[Aligned(u)]
  }

  /** The two addresses land on the same byte. */
  predicate SameByte(s: Space, t: Word, u: Word) {
    SameWord(s, t, u) && t % 4 == u % 4
  }

  /** No two bytes of the range land on the same byte. */
  ghost predicate NoClash(s: Space, addr: Word, n: nat) {
    forall i, j :: 0 <= i < j < n ==> !SameByte(s, Target(addr, i), Target(addr, j))
  }

  lemma PokePeek(s: Space, t: Word, b: Byte, u: Word)
    requires s.Reaches(Aligned(t)) && s.Reaches(Aligned(u))
    ensures Peek(Poke(s, t, b), u) == if SameByte(s, t, u) then b else Peek(s, u)
  {
    SpliceAt(s.words[s.lands[Aligned(t)]], t % 4, b, u % 4);
  }

  /** Storing byte by byte leaves at each address of the range the last byte stored to where it lands. */
  lemma {:induction false} PokedLast(s: Space, addr: Word, bytes: seq<Byte>, i: nat, j: nat)
    requires i < |bytes| && j < |bytes| && Readable(s, addr, |bytes|)
    requires SameByte(s, Target(addr, i), Target(addr, j))
    requires forall k :: j < k < |bytes| ==> !SameByte(s, Target(addr, i), Target(addr, k))
    ensures Peek(PokeAll(s, addr, bytes), Target(addr, i)) == bytes[j]
  {
    var n := |bytes| - 1;
    ReadablePrefix(s, addr, n + 1, i + 1);
    PokedLastUpTo(s, addr, bytes, Target(addr, i), j);
  }

  lemma {:induction false} PokedLastUpTo(s: Space, addr: Word, bytes: seq<Byte>, t: Word, j: nat)
    requires j < |bytes| && Readable(s, addr, |bytes|) && s.Reaches(Aligned(t)) && SameByte(s, t, Target(addr, j))
    requires forall k :: j < k < |bytes| ==> !SameByte(s, t, Target(addr, k))
    ensures Peek(PokeAll(s, addr, bytes), t) == bytes[j]
  {
    var n := |bytes| - 1;
    PokePeek(PokeAll(s, addr, bytes[..n]), Target(addr, n), bytes[n], t);
    if j < n {
      PokedLastUpTo(s, addr, bytes[..n], t, j);
    }
  }

  /** Without a clash every byte of the range is left as written. */
  lemma PokedInside(s: Space, addr: Word, bytes: seq<Byte>, i: nat)
    requires i < |bytes| && Readable(s, addr, |bytes|) && NoClash(s, addr, |bytes|)
    ensures Peek(PokeAll(s, addr, bytes), Target(addr, i)) == bytes[i]
  {
    ReadablePrefix(s, addr, |bytes|, i + 1);
    PokedLast(s, addr, bytes, i, i);
  }

  /** The later of two bytes that clash. */
  lemma {:induction false} LastClash(s: Space, addr: Word, n: nat, i: nat, j: nat) returns (k: nat)
    requires i < j < n && SameByte(s, Target(addr, i), Target(addr, j))
    ensures i < k < n && SameByte(s, Target(addr, i), Target(addr, k))
    ensures forall m :: k < m < n ==> !SameByte(s, Target(addr, i), Target(addr, m))
    decreases n - j
  {
    if m :| j < m < n && SameByte(s, Target(addr, i), Target(addr, m)) {
      k := LastClash(s, addr, n, i, m);
    } else {
      k := j;
    }
  }

  ghost predicate ReadsBack(s: Space, addr: Word, bytes: seq<Byte>) {
    forall i :: 0 <= i < |bytes| ==> Peek(PokeAll(s, addr, bytes), Target(addr, i)) == bytes[i]
  }

  /** Whatever is written to a readable range can be read back if and only if no two bytes of the range land on
      the same byte. */
  lemma ReadBackExact(s: Space, addr: Word, n: nat)
    requires Readable(s, addr, n)
    ensures (forall bytes: seq<Byte> :: |bytes| == n ==> ReadsBack(s, addr, bytes)) <==> NoClash(s, addr, n)
  {
    if NoClash(s, addr, n) {
      forall bytes: seq<Byte> | |bytes| == n
        ensures ReadsBack(s, addr, bytes)
      {
        forall i | 0 <= i < |bytes|
          ensures Peek(PokeAll(s, addr, bytes), Target(addr, i)) == bytes[i]
        {
          PokedInside(s, addr, bytes, i);
        }
      }
    } else {
      var i, j :| 0 <= i < j < n && SameByte(s, Target(addr, i), Target(addr, j));
      var k := LastClash(s, addr, n, i, j);
      var bytes: seq<Byte> := seq(n, m => if m == i then 1 else 0);
      PokedLast(s, addr, bytes, i, k);
      assert !ReadsBack(s, addr, bytes);
    }
  }

  lemma ClashFails(s: Space, addr: Word, n: nat, i: nat, j: nat)
    requires Readable(s, addr, n) && i < j < n && SameByte(s, Target(addr, i), Target(addr, j))
    ensures exists bytes: seq<Byte> :: |bytes| == n && !ReadsBack(s, addr, bytes)
  {
    ReadBackExact(s, addr, n);
  }

  lemma TargetPlace(x: nat)
    ensures x % 0x1_0000_0000 % 0x1000 == x % 0x1000 && x % 0x1_0000_0000 % 4 == x % 4
  {
    var q, y := x / 0x1_0000_0000, x % 0x1_0000_0000;
    assert x == q * 0x1_0000_0000 + y;
    DivUnique(x, 0x1000, q * 0x10_0000 + y / 0x1000, y % 0x1000);
    DivUnique(x, 4, q * 0x4000_0000 + y / 4, y % 4);
  }

  lemma StepPlace(x: nat, step: nat, m: nat)
    requires m > 0
    ensures x % m == (x + step) % m <==> step % m == 0
  {
    var a, b := x % m, (x + step) % m;
    var p, q := x / m, (x + step) / m;
    assert x == p * m + a && x + step == q * m + b;
    if a == b {
      assert step == (q - p) * m + 0 by {
        assert (q - p) * m == q * m - p * m;
      }
      DivUnique(step, m, q - p, 0);
    } else if step % m == 0 {
      var k := step / m;
      assert step == k * m;
      assert x + step == (p + k) * m + a by {
        assert (p + k) * m == p * m + k * m;
      }
      DivUnique(x + step, m, p + k, a);
    }
  }

  /** Two words of the range on one guest word: some bytes do not read back. */
  lemma AliasedRangeFails(s: Space, addr: Word, n: nat, i: nat, step: nat)
    requires Readable(s, addr, n) && 0 < step && i + step < n && step % 4 == 0
    requires SameWord(s, Target(addr, i), Target(addr, i + step))
    ensures exists bytes: seq<Byte> :: |bytes| == n && !ReadsBack(s, addr, bytes)
  {
    TargetPlace(addr + i);
    TargetPlace(addr + i + step);
    StepPlace(addr + i, step, 4);
    ClashFails(s, addr, n, i, i + step);
  }

  /* Where clashes come from */

  /** With translation on, debugger addresses land where the MMU translates a supervisor load. */
  ghost predicate Translated(s: Space, dev: Srmmu.Device, bus: Srmmu.Bus, ptr: Word, ctx: Word) {
    forall va: Word :: va in s.lands ==>
      var t := Srmmu.Translate(dev, bus, ptr, ctx, va, true, Srmmu.Load); t.Mapped? && t.pa == s.lands[va]
  }

  predicate PagesApart(i: nat, j: nat) {
    (j - i) % 0x1000 == 0
  }

  /** The same place within their pages. */
  predicate WholePages(t: Word, u: Word) {
    t % 0x1000 == u % 0x1000
  }

  /** Translated addresses that clash are whole pages apart. */
  lemma ClashIsPaged(s: Space, dev: Srmmu.Device, bus: Srmmu.Bus, ptr: Word, ctx: Word, t: Word, u: Word)
    requires Translated(s, dev, bus, ptr, ctx) && SameByte(s, t, u)
    ensures WholePages(t, u)
  {
    LandsInPlace(s, dev, bus, ptr, ctx, Aligned(t));
    LandsInPlace(s, dev, bus, ptr, ctx, Aligned(u));
    AlignedPlace(t);
    AlignedPlace(u);
  }

  lemma LandsInPlace(s: Space, dev: Srmmu.Device, bus: Srmmu.Bus, ptr: Word, ctx: Word, va: Word)
    requires Translated(s, dev, bus, ptr, ctx) && va in s.lands
    ensures s.lands[va] % 0x1000 == va % 0x1000
  {
    Srmmu.TranslateIsPaged(dev, bus, ptr, ctx, va, va, true, Srmmu.Load);
  }

  lemma AlignedPlace(t: Word)
    ensures t % 0x1000 == Aligned(t) % 0x1000 + t % 4
  {
    var q, y := t / 0x1000, t % 0x1000;
    assert t == q * 0x1000 + y;
    DivUnique(t, 4, q * 0x400 + y / 4, y % 4);
    DivUnique(Aligned(t), 0x1000, q, y - y % 4);
  }

  lemma StepIsPaged(addr: Word, i: nat, j: nat)
    requires i <= j
    ensures WholePages(Target(addr, i), Target(addr, j)) <==> PagesApart(i, j)
  {
    TargetPlace(addr + i);
    TargetPlace(addr + j);
    StepPlace(addr + i, j - i, 0x1000);
  }

  lemma ClashApart(s: Space, dev: Srmmu.Device, bus: Srmmu.Bus, ptr: Word, ctx: Word, addr: Word, i: nat, j: nat)
    requires Translated(s, dev, bus, ptr, ctx) && i <= j && SameByte(s, Target(addr, i), Target(addr, j))
    ensures PagesApart(i, j)
  {
    ClashIsPaged(s, dev, bus, ptr, ctx, Target(addr, i), Target(addr, j));
    StepIsPaged(addr, i, j);
  }

  /** No byte of the range lands where one a number of whole pages further on does. */
  ghost predicate NoPageClash(s: Space, addr: Word, n: nat) {
    forall i, j :: 0 <= i < j < n && PagesApart(i, j) ==> !SameByte(s, Target(addr, i), Target(addr, j))
  }

  lemma OnlyPagesClash(s: Space, dev: Srmmu.Device, bus: Srmmu.Bus, ptr: Word, ctx: Word, addr: Word, n: nat)
    requires Translated(s, dev, bus, ptr, ctx)
    ensures NoClash(s, addr, n) <==> NoPageClash(s, addr, n)
  {
    if !NoClash(s, addr, n) {
      var i, j :| 0 <= i < j < n && SameByte(s, Target(addr, i), Target(addr, j));
      ClashApart(s, dev, bus, ptr, ctx, addr, i, j);
    }
  }

  /** With translation on, what is written to a readable range reads back if and only if no two of its pages land on
      one page. */
  lemma TranslatedReadBack(s: Space, dev: Srmmu.Device, bus: Srmmu.Bus, ptr: Word, ctx: Word, addr: Word, n: nat)
    requires Translated(s, dev, bus, ptr, ctx) && Readable(s, addr, n)
    ensures (forall bytes: seq<Byte> :: |bytes| == n ==> ReadsBack(s, addr, bytes)) <==> NoPageClash(s, addr, n)
  {
    ReadBackExact(s, addr, n);
    OnlyPagesClash(s, dev, bus, ptr, ctx, addr, n);
  }

  lemma WithinPage(s: Space, addr: Word, n: nat)
    requires n <= 0x1000
    ensures NoPageClash(s, addr, n)
  {
    forall i, j | 0 <= i < j < n
      ensures !PagesApart(i, j)
    {
      NotApart(i, j);
    }
  }

  lemma NotApart(i: nat, j: nat)
    requires i < j < i + 0x1000
    ensures !PagesApart(i, j)
  {
  }

  /** In particular a range of no more than a page always does. */
  lemma PageReadsBack(s: Space, dev: Srmmu.Device, bus: Srmmu.Bus, ptr: Word, ctx: Word, addr: Word, bytes: seq<Byte>)
    requires Translated(s, dev, bus, ptr, ctx) && Readable(s, addr, |bytes|) && |bytes| <= 0x1000
    ensures ReadsBack(s, addr, bytes)
  {
    WithinPage(s, addr, |bytes|);
    TranslatedReadBack(s, dev, bus, ptr, ctx, addr, |bytes|);
  }

  /** The page number is or-ed into the frame number, so a large page whose frame number is odd puts two pages of the
      guest on every odd frame. */
  lemma OddFramePairs(pte: Word, level: nat, page: nat)
    requires (level == 1 || level == 2) && pte / 0x100 % 2 == 1 && page % 2 == 0 && page + 1 < 0x10_0000
    ensures Srmmu.PhysPage(pte, level, page) == Srmmu.PhysPage(pte, level, page + 1)
  {
    EvenIndex(page);
    OddFrame(pte / 0x100);
    OddOr(if level == 2 then page % 0x40 else page % 0x1000, pte / 0x100 % 0x10_0000);
  }

  lemma EvenIndex(page: nat)
    requires page % 2 == 0
    ensures page % 0x40 % 2 == 0 && (page + 1) % 0x40 == page % 0x40 + 1
    ensures page % 0x1000 % 2 == 0 && (page + 1) % 0x1000 == page % 0x1000 + 1
  {
    EvenUnder(page, page / 0x40, page % 0x40, 0x20);
    EvenUnder(page, page / 0x1000, page % 0x1000, 0x800);
  }

  lemma EvenUnder(x: nat, q: nat, y: nat, k: nat)
    requires x % 2 == 0 && k > 0 && x == q * (2 * k) + y && y < 2 * k
    ensures y % 2 == 0 && (x + 1) % (2 * k) == y + 1
  {
    assert q * (2 * k) == 2 * (q * k);
    DivUnique(y, 2, x / 2 - q * k, 0);
    DivUnique(x + 1, 2 * k, q, y + 1);
  }

  lemma OddFrame(f: nat)
    requires f % 2 == 1
    ensures f % 0x10_0000 % 2 == 1
  {
    DivUnique(f % 0x10_0000, 2, f / 2 - f / 0x10_0000 * 0x8_0000, 1);
  }

  lemma OddOr(a: nat, b: nat)
    requires a % 2 == 0 && b % 2 == 1
    ensures BitOr(a, b) == BitOr(a + 1, b)
  {
    assert (a + 1) / 2 == a / 2;
    if a == 0 {
      assert BitOr(1, b) == 2 * BitOr(0, b / 2) + 1;
    }
  }

  lemma OddFrameAddresses(dev: Srmmu.Device, bus: Srmmu.Bus, ptr: Word, ctx: Word, va: Word)
    requires va % 0x2000 == 0
    requires var w := Srmmu.Walk(dev, bus, ptr, ctx, va); (w.level == 1 || w.level == 2) && w.pte / 0x100 % 2 == 1
    ensures va + 0x1000 < 0x1_0000_0000
    ensures var t, t' := Srmmu.Translate(dev, bus, ptr, ctx, va, true, Srmmu.Load),
                         Srmmu.Translate(dev, bus, ptr, ctx, va + 0x1000, true, Srmmu.Load);
            t == t'
  {
    var w := Srmmu.Walk(dev, bus, ptr, ctx, va);
    EvenPage(va);
    Srmmu.SameMaskSameIndices(w.level, va, va + 0x1000);
    Srmmu.WalkIsRegional(dev, bus, ptr, ctx, va, va + 0x1000);
    OddFramePairs(w.pte, w.level, va / 0x1000);
    SamePhysAddr(w.pte, w.level, va);
    SameTranslation(dev, bus, ptr, ctx, va, va + 0x1000);
  }

  lemma SamePhysAddr(pte: Word, level: nat, va: Word)
    requires va % 0x1000 == 0 && va + 0x1000 < 0x1_0000_0000
    requires Srmmu.PhysPage(pte, level, va / 0x1000) == Srmmu.PhysPage(pte, level, va / 0x1000 + 1)
    ensures Srmmu.PhysAddr(pte, level, va) == Srmmu.PhysAddr(pte, level, va + 0x1000)
  {
    DivUnique(va + 0x1000, 0x1000, va / 0x1000 + 1, 0);
  }

  lemma SameTranslation(dev: Srmmu.Device, bus: Srmmu.Bus, ptr: Word, ctx: Word, va: Word, va': Word)
    requires var w := Srmmu.Walk(dev, bus, ptr, ctx, va);
             w == Srmmu.Walk(dev, bus, ptr, ctx, va') &&
                 Srmmu.PhysAddr(w.pte, w.level, va) == Srmmu.PhysAddr(w.pte, w.level, va')
    ensures Srmmu.Translate(dev, bus, ptr, ctx, va, true, Srmmu.Load) ==
            Srmmu.Translate(dev, bus, ptr, ctx, va', true, Srmmu.Load)
  {
  }

  /** An even page and the next lie in one region of either size. */
  lemma EvenPage(va: Word)
    requires va % 0x2000 == 0
    ensures va % 0x1000 == 0 && va / 0x1000 % 2 == 0 && va + 0x1000 < 0x1_0000_0000
    ensures (va + 0x1000) / 0x100_0000 == va / 0x100_0000 && (va + 0x1000) / 0x4_0000 == va / 0x4_0000
  {
    DivUnique(va, 0x1000, 2 * (va / 0x2000), 0);
    NextPage(va, va / 0x100_0000, va % 0x100_0000, 0x800);
    NextPage(va, va / 0x4_0000, va % 0x4_0000, 0x20);
  }

  lemma NextPage(va: Word, q: nat, y: nat, k: nat)
    requires va % 0x2000 == 0 && va == q * (k * 0x2000) + y && y < k * 0x2000
    ensures (va + 0x1000) / (k * 0x2000) == q
  {
    var m := va / 0x2000 - q * k;
    assert q * (k * 0x2000) == q * k * 0x2000;
    assert y == m * 0x2000 && m < k;
    DivUnique(va + 0x1000, k * 0x2000, q, y + 0x1000);
  }

  /** So on such a page, more than 0x1000 bytes written from the start of an even page on do not all read back. */
  lemma OddFrameFails(s: Space, dev: Srmmu.Device, bus: Srmmu.Bus, ptr: Word, ctx: Word, addr: Word, n: nat)
    requires Translated(s, dev, bus, ptr, ctx) && Readable(s, addr, n) && addr % 0x2000 == 0 && n > 0x1000
    requires var w := Srmmu.Walk(dev, bus, ptr, ctx, addr); (w.level == 1 || w.level == 2) && w.pte / 0x100 % 2 == 1
    ensures exists bytes: seq<Byte> :: |bytes| == n && !ReadsBack(s, addr, bytes)
  {
    OddFrameAddresses(dev, bus, ptr, ctx, addr);
    AliasFails(s, dev, bus, ptr, ctx, addr, n, addr + 0x1000);
  }

  lemma AliasFails(s: Space, dev: Srmmu.Device, bus: Srmmu.Bus, ptr: Word, ctx: Word, addr: Word, n: nat, u: Word)
    requires Translated(s, dev, bus, ptr, ctx) && Readable(s, addr, n)
    requires addr % 0x2000 == 0 && n > 0x1000 && u == addr + 0x1000
    requires Srmmu.Translate(dev, bus, ptr, ctx, addr, true, Srmmu.Load) ==
             Srmmu.Translate(dev, bus, ptr, ctx, u, true, Srmmu.Load)
    ensures exists bytes: seq<Byte> :: |bytes| == n && !ReadsBack(s, addr, bytes)
  {
    StartsReached(s, addr, n, u);
    LandsAlike(s, dev, bus, ptr, ctx, addr, u);
    SameStartFails(s, addr, n, u);
  }

  lemma StartsReached(s: Space, addr: Word, n: nat, u: Word)
    requires Readable(s, addr, n) && addr % 0x2000 == 0 && n > 0x1000 && u == addr + 0x1000
    ensures addr in s.lands && u in s.lands
  {
    PageStarts(addr);
    ReadableAt(s, addr, n, 0);
    ReadableAt(s, addr, n, 0x1000);
  }

  lemma SameStartFails(s: Space, addr: Word, n: nat, u: Word)
    requires Readable(s, addr, n) && addr % 0x2000 == 0 && n > 0x1000 && u == addr + 0x1000
    requires addr in s.lands && u in s.lands && s.lands[addr] == s.lands[u]
    ensures exists bytes: seq<Byte> :: |bytes| == n && !ReadsBack(s, addr, bytes)
  {
    PageStarts(addr);
    PairFails(s, addr, n, 0x1000);
  }

  lemma PairFails(s: Space, addr: Word, n: nat, step: nat)
    requires Readable(s, addr, n) && 0 < step < n && step % 4 == 0 && SameWord(s, Target(addr, 0), Target(addr, step))
    ensures exists bytes: seq<Byte> :: |bytes| == n && !ReadsBack(s, addr, bytes)
  {
    AliasedRangeFails(s, addr, n, 0, step);
  }

  lemma LandsAlike(s: Space, dev: Srmmu.Device, bus: Srmmu.Bus, ptr: Word, ctx: Word, t: Word, u: Word)
    requires Translated(s, dev, bus, ptr, ctx) && t in s.lands && u in s.lands
    requires Srmmu.Translate(dev, bus, ptr, ctx, t, true, Srmmu.Load) ==
             Srmmu.Translate(dev, bus, ptr, ctx, u, true, Srmmu.Load)
    ensures s.lands[t] == s.lands[u]
  {
  }

  lemma ReadableAt(s: Space, addr: Word, n: nat, i: nat)
    requires Readable(s, addr, n) && i < n
    ensures s.Reaches(Aligned(Target(addr, i)))
  {
    ReadablePrefix(s, addr, n, i + 1);
  }

  lemma PageStarts(addr: Word)
    requires addr % 0x2000 == 0 && addr + 0x1000 < 0x1_0000_0000
    ensures Target(addr, 0) == addr && Aligned(addr) == addr
    ensures Target(addr, 0x1000) == addr + 0x1000 && Aligned(addr + 0x1000) == addr + 0x1000
  {
    DivUnique(addr, 4, addr / 0x2000 * 0x800, 0);
    DivUnique(addr + 0x1000, 4, addr / 0x2000 * 0x800 + 0x400, 0);
  }

  /** With translation off, an address lands on itself or, in one of the two windows of the boot loader, in RAM. */
  predicate Booting(s: Space) {
    forall va: Word :: va in s.lands ==>
      || s.lands[va] == va
      || (0xF000_0000 <= va < 0xFBFF_FFFF && s.lands[va] == va - 0xB000_0000)
      || (0xFFD0_0000 <= va < 0xFFD1_3FFF && s.lands[va] == va - 0xBBD1_4000)
  }

  /** A range that does not reach from one window to the other or to RAM has no clash. */
  lemma BootReadBack(s: Space, addr: Word, n: nat)
    requires Booting(s) && n <= 0xBD1_4000
    ensures NoClash(s, addr, n)
  {
    forall i, j | 0 <= i < j < n
      ensures !SameByte(s, Target(addr, i), Target(addr, j))
    {
      BootApart(s, addr, i, j);
    }
  }

  lemma BootApart(s: Space, addr: Word, i: nat, j: nat)
    requires Booting(s) && i < j < i + 0xBD1_4000
    ensures !SameByte(s, Target(addr, i), Target(addr, j))
  {
    TargetsApart(addr, i, j);
    if SameByte(s, Target(addr, i), Target(addr, j)) {
      BootDistinct(s, Aligned(Target(addr, i)), Aligned(Target(addr, j)));
    }
  }

  /** Less than the distance between the two windows' images on, modulo 2^32. */
  predicate Near(t: Word, u: Word) {
    0 < u - t < 0xBD1_4000 || 0 < u - t + 0x1_0000_0000 < 0xBD1_4000
  }

  lemma TargetsApart(addr: Word, i: nat, j: nat)
    requires i < j < i + 0xBD1_4000
    ensures Near(Target(addr, i), Target(addr, j))
  {
    var x := addr + i;
    var q, r := x / 0x1_0000_0000, x % 0x1_0000_0000;
    if r + (j - i) < 0x1_0000_0000 {
      DivUnique(addr + j, 0x1_0000_0000, q, r + (j - i));
    } else {
      DivUnique(addr + j, 0x1_0000_0000, q + 1, r + (j - i) - 0x1_0000_0000);
    }
  }

  lemma BootDistinct(s: Space, t: Word, u: Word)
    requires Booting(s) && t in s.lands && u in s.lands && Near(t, u)
    ensures s.lands[t] != s.lands[u]
  {
  }

  /** And it changes no other byte. */
  lemma {:induction false} PokedOutside(s: Space, addr: Word, bytes: seq<Byte>, pa: Word, k: nat)
    requires pa in s.words && k < 4
    requires forall i :: 0 <= i < |bytes| ==> !LandsOn(s, Target(addr, i), pa, k)
    ensures ByteOf(PokeAll(s, addr, bytes).words[pa], k) == ByteOf(s.words[pa], k)
  {
    if bytes != [] {
      var n := |bytes| - 1;
      PokedOutside(s, addr, bytes[..n], pa, k);
      var before, t := PokeAll(s, addr, bytes[..n]), Target(addr, n);
      assert !LandsOn(s, t, pa, k);
      if before.Reaches(Aligned(t)) {
        SpliceAt(before.words[before.lands[Aligned(t)]], t % 4, bytes[n], k);
      }
    }
  }

  predicate Differ(s: Space, t: Space, pa: Word, k: nat)
    requires pa in s.words && pa in t.words
  {
    k < 4 && ByteOf(t.words[pa], k) != ByteOf(s.words[pa], k)
  }

  /** The two memories differ at most in bytes that the range lands on. */
  ghost predicate OnlyWithin(s: Space, t: Space, addr: Word, n: nat) {
    && t.lands == s.lands && t.words.Keys == s.words.Keys
    && forall pa, k: nat :: pa in s.words && pa in t.words && Differ(s, t, pa, k) ==>
                         exists i :: 0 <= i < n && LandsOn(s, Target(addr, i), pa, k)
  }

  lemma ChangesOnlyWithin(s: Space, addr: Word, bytes: seq<Byte>)
    ensures OnlyWithin(s, PokeAll(s, addr, bytes), addr, |bytes|)
  {
    var t := PokeAll(s, addr, bytes);
    forall pa, k: nat | pa in s.words && pa in t.words && Differ(s, t, pa, k)
      ensures exists i :: 0 <= i < |bytes| && LandsOn(s, Target(addr, i), pa, k)
    {
      if forall i :: 0 <= i < |bytes| ==> !LandsOn(s, Target(addr, i), pa, k) {
        PokedOutside(s, addr, bytes, pa, k);
      }
    }
  }

  predicate LandsOn(s: Space, t: Word, pa: Word, k: nat) {
    Aligned(t) in s.lands && s.lands[Aligned(t)] == pa && t % 4 == k
  }

  lemma {:induction false} PeekAllIs(s: Space, addr: Word, bytes: seq<Byte>, n: nat)
    requires n <= |bytes| && forall i :: 0 <= i < n ==> Peek(s, Target(addr, i)) == bytes[i]
    ensures PeekAll(s, addr, n) == bytes[..n]
  {
    if n > 0 {
      PeekAllIs(s, addr, bytes, n - 1);
      assert Peek(s, Target(addr, n - 1)) == bytes[n - 1];
    }
  }

  /** How many of the first n bytes from addr come before a word that cannot be read and written. */
  function Progress(s: Space, writable: set<Word>, addr: Word, n: nat): (p: nat)
    ensures p <= n
  {
    if n == 0 then 0
    else
      var p := Progress(s, writable, addr, n - 1);
      var va := Aligned(Target(addr, n - 1));
      if p == n - 1 && s.Reaches(va) && va in writable then n else p
  }

  lemma {:induction false} ProgressStops(s: Space, writable: set<Word>, addr: Word, n: nat, k: nat)
    requires k < n && Progress(s, writable, addr, k + 1) == k
    ensures Progress(s, writable, addr, n) == k
  {
    if k + 1 < n {
      ProgressStops(s, writable, addr, n - 1, k);
    }
  }

  lemma {:induction false} ProgressReadable(s: Space, writable: set<Word>, addr: Word, n: nat)
    requires Progress(s, writable, addr, n) == n
    ensures Readable(s, addr, n)
  {
    if n > 0 {
      ProgressReadable(s, writable, addr, n - 1);
    }
  }

  /* Hex text */

  function HexDigit(n: nat): char
    requires n < 16
  {
    if n < 10 then ('0' as int + n) as char else ('a' as int + n - 10) as char
  }

  function HexValue(c: char): (r: Option<nat>)
    ensures r.Some? ==> r.value < 16
  {
    if '0' <= c <= '9' then Some(c as int - '0' as int)
    else if 'a' <= c <= 'f' then Some(c as int - 'a' as int + 10)
    else if 'A' <= c <= 'F' then Some(c as int - 'A' as int + 10)
    else None
  }

  predicate IsSpace(c: char) {
    c == ' ' || '\t' <= c <= '\r'
  }

  /** What std::stoi in base 16 makes of two characters, kept to a byte; None where it throws. It skips
      leading white space, takes a sign, and stops at the first character that is no digit. */
  function Stoi(a: char, b: char): Option<Byte> {
    match (HexValue(a), HexValue(b))
    case (Some(x), Some(y)) => Some(16 * x + y)
    case (Some(x), None) => Some(x)
    case (None, Some(y)) =>
      if IsSpace(a) || a == '+' then Some(y)
      else if a == '-' then Some(if y == 0 then 0 else 0x100 - y)
      else None
    case (None, None) => None
  }

  function TwoDigits(b: Byte): (r: string)
    ensures |r| == 2
  {
    [HexDigit(b / 16), HexDigit(b % 16)]
  }

  function HexText(bytes: seq<Byte>): (r: string)
    ensures |r| == 2 * |bytes|
  {
    if bytes == [] then []
    else HexText(bytes[..|bytes| - 1]) + TwoDigits(bytes[|bytes| - 1])
  }

  predicate Decodable(data: string, n: nat)
    requires 2 * n <= |data|
  {
    n == 0 || (Decodable(data, n - 1) && Stoi(data[2 * n - 2], data[2 * n - 1]).Some?)
  }

  function Decoded(data: string, n: nat): (r: seq<Byte>)
    requires 2 * n <= |data| && Decodable(data, n)
    ensures |r| == n
  {
    if n == 0 then [] else Decoded(data, n - 1) + [Stoi(data[2 * n - 2], data[2 * n - 1]).value]
  }

  function Lower(c: char): char {
    if 'A' <= c <= 'F' then (c as int - 'A' as int + 'a' as int) as char else c
  }

  predicate IsHex(data: string) {
    forall i :: 0 <= i < |data| ==> HexValue(data[i]).Some?
  }

  function Lowered(data: string): string {
    seq(|data|, (i: nat) requires i < |data| => Lower(data[i]))
  }

  lemma HexRound(c: char)
    requires HexValue(c).Some?
    ensures HexDigit(HexValue(c).value) == Lower(c)
  {
  }

  lemma PairRound(a: char, b: char)
    requires HexValue(a).Some? && HexValue(b).Some?
    ensures Stoi(a, b).Some?
    ensures TwoDigits(Stoi(a, b).value) == [Lower(a), Lower(b)]
  {
    HexRound(a);
    HexRound(b);
    DivUnique(16 * HexValue(a).value + HexValue(b).value, 16, HexValue(a).value, HexValue(b).value);
  }

  const DIGITS: string := "0123456789abcdef"

  /** A digit has its place in the row of digits as its value, in either case. */
  lemma DigitValue(c: char, v: nat)
    requires v < 16
    ensures HexValue(c) == Some(v) <==> Lower(c) == DIGITS[v]
    ensures HexDigit(v) == DIGITS[v]
  {
    DigitAt(v);
  }

  lemma DigitAt(v: nat)
    requires v < 16
    ensures DIGITS[v] as int == if v < 10 then '0' as int + v else 'a' as int + v - 10
  {
  }

  /** Two digits are a byte, the first worth 16 times the second. */
  lemma PairValue(a: char, b: char, hi: nat, lo: nat)
    requires hi < 16 && lo < 16 && Lower(a) == DIGITS[hi] && Lower(b) == DIGITS[lo]
    ensures Stoi(a, b) == Some(16 * hi + lo)
    ensures TwoDigits(16 * hi + lo) == [DIGITS[hi], DIGITS[lo]]
  {
    DigitValue(a, hi);
    DigitValue(b, lo);
    DivUnique(16 * hi + lo, 16, hi, lo);
  }

  /** Byte i of the text is made of its digits 2i and 2i + 1, and of no others. */
  lemma {:induction false} DecodedAt(data: string, n: nat, i: nat)
    requires 2 * n <= |data| && Decodable(data, n) && i < n
    ensures Stoi(data[2 * i], data[2 * i + 1]) == Some(Decoded(data, n)[i])
  {
    if i < n - 1 {
      DecodedAt(data, n - 1, i);
    }
  }

  lemma {:induction false} HexTextAt(bytes: seq<Byte>, i: nat)
    requires i < |bytes|
    ensures [HexText(bytes)[2 * i], HexText(bytes)[2 * i + 1]] == TwoDigits(bytes[i])
  {
    if i < |bytes| - 1 {
      HexTextAt(bytes[..|bytes| - 1], i);
    }
  }

  lemma LoweredTail(data: string, n: nat)
    requires 0 < n && 2 * n <= |data|
    ensures Lowered(data[..2 * n]) == Lowered(data[..2 * (n - 1)]) + [Lower(data[2 * n - 2]), Lower(data[2 * n - 1])]
  {
  }

  lemma HexTextTail(bytes: seq<Byte>, b: Byte)
    ensures HexText(bytes + [b]) == HexText(bytes) + TwoDigits(b)
  {
    assert (bytes + [b])[..|bytes|] == bytes;
  }

  /** Printing what was decoded gives the text back, in lower case. */
  lemma {:induction false} DecodeRound(data: string, n: nat)
    requires 2 * n <= |data| && IsHex(data)
    ensures Decodable(data, n) && HexText(Decoded(data, n)) == Lowered(data[..2 * n])
  {
    if n > 0 {
      DecodeRound(data, n - 1);
      var a, b := data[2 * n - 2], data[2 * n - 1];
      PairRound(a, b);
      LoweredTail(data, n);
      HexTextTail(Decoded(data, n - 1), Stoi(a, b).value);
    }
  }

  lemma {:induction false} DecodablePrefix(data: string, n: nat, k: nat)
    requires k <= n && 2 * n <= |data| && Decodable(data, n)
    ensures Decodable(data, k)
  {
    if k < n {
      DecodablePrefix(data, n - 1, k);
    }
  }

  /* The packet handlers */

  class GdbStub {
    const writable: set<Word>
    var space: Space

    constructor (space: Space, writable: set<Word>)
      ensures this.space == space && this.writable == writable
    {
      this.space, this.writable := space, writable;
    }

    /** None where the stub throws. */
    method ReadMem32(va: Word) returns (r: Option<Word>)
      ensures r == if space.Reaches(va) then Some(space.words[space.lands[va]]) else None
    {
      if va in space.lands && space.lands[va] in space.words {
        return Some(space.words[space.lands[va]]);
      }
      return None;
    }

    /** Fails, changing nothing, where the stub throws. */
    method WriteMem32(va: Word, value: Word) returns (ok: bool)
      modifies this`space
      ensures ok <==> old(space).Reaches(va) && va in writable
      ensures space == if ok then old(space).(words := old(space).words[old(space).lands[va] := value]) else old(space)
    {
      ok := va in space.lands && space.lands[va] in space.words && va in writable;
      if ok {
        space := space.(words := space.words[space.lands[va] := value]);
      }
    }

    /** The bytes of the range in lower-case hex, or None where the stub throws because one of them cannot
        be read. */
    method HandleMemoryRead(addr: Word, len: nat) returns (r: Option<string>)
      ensures r == if Readable(space, addr, len) then Some(HexText(PeekAll(space, addr, len))) else None
    {
      var result := "";
      var last: Word := 0xFFFF_FFFF;
      var cached: Word := 0;
      var i := 0;
      while i < len
        invariant i <= len && Readable(space, addr, i) && result == HexText(PeekAll(space, addr, i))
        invariant last == 0xFFFF_FFFF || (space.Reaches(last) && cached == space.words[space.lands[last]])
      {
        var t := Target(addr, i);
        var aligned := Aligned(t);
        if aligned != last {
          var w := ReadMem32(aligned);
          if w.None? {
            if Readable(space, addr, len) {
              ReadablePrefix(space, addr, len, i + 1);
            }
            return None;
          }
          cached, last := w.value, aligned;
        }
        NotOnes(t);
        var byte := ByteOf(cached, t % 4);
        assert byte == Peek(space, t);
        HexTextTail(PeekAll(space, addr, i), byte);
        result := result + TwoDigits(byte);
        i := i + 1;
      }
      return Some(result);
    }

    /** Decodes the text, or None where std::stoi throws. */
    method DecodeHex(data: string, len: nat) returns (r: Option<seq<Byte>>)
      requires |data| == 2 * len
      ensures r == if Decodable(data, len) then Some(Decoded(data, len)) else None
    {
      var bytes := [];
      var i := 0;
      while i < len
        invariant i <= len && Decodable(data, i) && bytes == Decoded(data, i)
      {
        var b := Stoi(data[2 * i], data[2 * i + 1]);
        if b.None? {
          if Decodable(data, len) {
            DecodablePrefix(data, len, i + 1);
          }
          return None;
        }
        bytes := bytes + [b.value];
        i := i + 1;
      }
      return Some(bytes);
    }

    /** Text of the wrong length is refused and bad text throws, both before anything is written. Otherwise
        memory ends as if the bytes had been stored one by one, up to the first word that cannot be
        read and written, where the stub throws. */
    method HandleMemoryWrite(addr: Word, len: nat, data: string) returns (r: Option<bool>)
      modifies this`space
      ensures |data| != 2 * len ==> r == Some(false) && space == old(space)
      ensures |data| == 2 * len && !Decodable(data, len) ==> r == None && space == old(space)
      ensures |data| == 2 * len && Decodable(data, len) ==>
                var p := Progress(old(space), writable, addr, len);
                && space == PokeAll(old(space), addr, Decoded(data, len)[..p])
                && r == if p == len then Some(true) else None
    {
      if |data| != 2 * len {
        return Some(false);
      }
      var decoded := DecodeHex(data, len);
      if decoded.None? {
        return None;
      }
      r := StoreBytes(addr, decoded.value);
    }

    method StoreBytes(addr: Word, bytes: seq<Byte>) returns (r: Option<bool>)
      modifies this`space
      ensures var p := Progress(old(space), writable, addr, |bytes|);
              && space == PokeAll(old(space), addr, bytes[..p])
              && r == if p == |bytes| then Some(true) else None
    {
      var last: Word := 0xFFFF_FFFF;
      var cached: Word := 0;
      var i := 0;
      while i < |bytes|
        invariant i <= |bytes| && Progress(old(space), writable, addr, i) == i
        invariant space == PokeAll(old(space), addr, bytes[..i])
        invariant last == 0xFFFF_FFFF
               || (space.Reaches(last) && last in writable && cached == space.words[space.lands[last]])
      {
        var t := Target(addr, i);
        var aligned := Aligned(t);
        assert bytes[..i + 1][..i] == bytes[..i];
        if aligned != last {
          var w := ReadMem32(aligned);
          if w.None? {
            ProgressStops(old(space), writable, addr, |bytes|, i);
            return None;
          }
          cached, last := w.value, aligned;
        }
        cached := Splice(cached, t % 4, bytes[i]);
        var ok := WriteMem32(aligned, cached);
        if !ok {
          ProgressStops(old(space), writable, addr, |bytes|, i);
          return None;
        }
        i := i + 1;
      }
      assert bytes[..i] == bytes;
      return Some(true);
    }

    /** Writing hex text to a reachable range and reading it back gives the same text in lower case. */
    method WriteThenRead(addr: Word, len: nat, data: string) returns (r: Option<string>)
      requires |data| == 2 * len && IsHex(data)
      requires Progress(space, writable, addr, len) == len && NoClash(space, addr, len)
      modifies this`space
      ensures r == Some(Lowered(data))
      ensures OnlyWithin(old(space), space, addr, len)
    {
      DecodeRound(data, len);
      ghost var bytes := Decoded(data, len);
      assert bytes[..len] == bytes && data[..2 * len] == data;
      var _ := HandleMemoryWrite(addr, len, data);
      ProgressReadable(old(space), writable, addr, len);
      forall i | 0 <= i < len
        ensures Peek(space, Target(addr, i)) == bytes[i]
      {
        PokedInside(old(space), addr, bytes, i);
      }
      PeekAllIs(space, addr, bytes, len);
      StillReadable(old(space), space, addr, len);
      ChangesOnlyWithin(old(space), addr, bytes);
      r := HandleMemoryRead(addr, len);
    }
  }

  lemma {:induction false} StillReadable(s: Space, t: Space, addr: Word, n: nat)
    requires Readable(s, addr, n) && t.lands == s.lands && t.words.Keys == s.words.Keys
    ensures Readable(t, addr, n)
  {
    if n > 0 {
      StillReadable(s, t, addr, n - 1);
    }
  }
}
