/** Memory banks of the memory controller: address ranges, host-backed bytes and the
    linear scan that decodes a physical address. */
module Banks {
  import opened Words

  datatype Endian = Big | Little

  /** A bank with `host` set exposes its byte buffer to the MMU's fast paths; one without it
      is a peripheral. `writable` is false for a locked ROM. */
  datatype Bank = Bank(base: Word, size: nat, host: bool, endian: Endian, writable: bool, data: seq<Byte>) {
    predicate Contains(addr: Word) {
      base <= addr < base + size
    }
    predicate Overlaps(other: Bank) {
      base < other.base + other.size && other.base < base + size
    }
  }

  /** The first attached bank that contains the address. */
  function Scan(banks: seq<Bank>, addr: Word): (r: Option<nat>)
    ensures r.Some? ==>
              && r.value < |banks| && banks[r.value].Contains(addr)
              && forall j :: 0 <= j < r.value ==> !banks[j].Contains(addr)
    ensures r.None? ==> forall j :: 0 <= j < |banks| ==> !banks[j].Contains(addr)
  {
    if banks == [] then None
    else if banks[0].Contains(addr) then Some(0)
    else match Scan(banks[1..], addr)
         case None => None
         case Some(i) => Some(i + 1)
  }

  ghost predicate PairwiseDisjoint(banks: seq<Bank>) {
    forall i, j :: 0 <= i < j < |banks| ==> !banks[i].Overlaps(banks[j])
  }

  /** Among disjoint banks the scan finds the only one that contains the address. */
  lemma UniqueBank(banks: seq<Bank>, addr: Word, i: nat)
    requires PairwiseDisjoint(banks) && i < |banks| && banks[i].Contains(addr)
    ensures Scan(banks, addr) == Some(i)
  {
    var j := Scan(banks, addr).value;
    if j < i {
      assert banks[j].Overlaps(banks[i]);
    }
  }

  /** Reading past the buffer is undefined in the emulator; here it yields 0. */
  function ByteAt(data: seq<Byte>, off: int): Byte {
    if 0 <= off < |data| then data[off] else 0
  }

  type Size = n: nat | n == 1 || n == 2 || n == 4 witness 1

  /** Big-endian assembly of `size` bytes behind a host pointer. */
  function RawRead(data: seq<Byte>, off: int, size: Size): Word {
    if size == 1 then ByteAt(data, off)
    else if size == 2 then ByteAt(data, off) * 0x100 + ByteAt(data, off + 1)
    else ByteAt(data, off) * 0x100_0000 + ByteAt(data, off + 1) * 0x1_0000
         + ByteAt(data, off + 2) * 0x100 + ByteAt(data, off + 3)
  }

  /** Big-endian store behind a host pointer; out of bounds it is undefined and here does nothing. */
  function RawWrite(data: seq<Byte>, off: int, size: Size, v: Word): (r: seq<Byte>)
    ensures |r| == |data|
  {
    if off < 0 || off + size > |data| then data
    else if size == 1 then data[off := v % 0x100]
    else if size == 2 then data[off := v / 0x100 % 0x100][off + 1 := v % 0x100]
    else data[off := v / 0x100_0000][off + 1 := v / 0x1_0000 % 0x100]
             [off + 2 := v / 0x100 % 0x100][off + 3 := v % 0x100]
  }

  /** The bank's own accessors, which honour its byte order. */
  function BankRead(b: Bank, addr: Word, size: Size): Word {
    var off := addr - b.base;
    if b.endian.Big? then RawRead(b.data, off, size)
    else if size == 1 then ByteAt(b.data, off)
    else if size == 2 then ByteAt(b.data, off + 1) * 0x100 + ByteAt(b.data, off)
    else ByteAt(b.data, off + 3) * 0x100_0000 + ByteAt(b.data, off + 2) * 0x1_0000
         + ByteAt(b.data, off + 1) * 0x100 + ByteAt(b.data, off)
  }

  function ByteSwapped(v: Word, size: Size): Word {
    if size == 1 then v
    else if size == 2 then v % 0x100 * 0x100 + v / 0x100 % 0x100
    else v % 0x100 * 0x100_0000 + v / 0x100 % 0x100 * 0x1_0000
         + v / 0x1_0000 % 0x100 * 0x100 + v / 0x100_0000
  }

  function BankWrite(b: Bank, addr: Word, size: Size, v: Word): (r: Bank)
    ensures r == b.(data := r.data) && |r.data| == |b.data|
  {
    b.(data := RawWrite(b.data, addr - b.base, size, if b.endian.Big? then v else ByteSwapped(v, size)))
  }

  /** As many low bits of a word as an access of the size moves. */
  function Truncate(v: Word, size: Size): Word {
    if size == 1 then v % 0x100 else if size == 2 then v % 0x1_0000 else v
  }

  lemma Halved(v: Word)
    ensures v % 0x1_0000 == v / 0x100 % 0x100 * 0x100 + v % 0x100
  {
    DivUnique(v, 0x1_0000, v / 0x100 / 0x100, v / 0x100 % 0x100 * 0x100 + v % 0x100);
  }

  lemma Quartered(v: Word)
    ensures v == v / 0x100_0000 * 0x100_0000 + v / 0x1_0000 % 0x100 * 0x1_0000 + v / 0x100 % 0x100 * 0x100 + v % 0x100
  {
    var h := v / 0x1_0000;
    DivUnique(v, 0x100_0000, h / 0x100, h % 0x100 * 0x1_0000 + v % 0x1_0000);
    Halved(v);
  }

  /** What is stored behind a pointer is loaded back, and no other byte changes. */
  lemma RawRoundTrip(data: seq<Byte>, off: nat, size: Size, v: Word)
    requires off + size <= |data|
    ensures RawRead(RawWrite(data, off, size, v), off, size) == Truncate(v, size)
    ensures forall i :: 0 <= i < |data| && !(off <= i < off + size) ==> RawWrite(data, off, size, v)[i] == data[i]
  {
    Halved(v);
    Quartered(v);
  }

  lemma SwapParts(b3: Byte, b2: Byte, b1: Byte, b0: Byte)
    ensures var w := b3 * 0x100_0000 + b2 * 0x1_0000 + b1 * 0x100 + b0;
            && w < 0x1_0000_0000 && w / 0x100_0000 == b3 && w / 0x1_0000 % 0x100 == b2
            && w / 0x100 % 0x100 == b1 && w % 0x100 == b0
            && w / 0x1_0000 == b3 * 0x100 + b2 && w % 0x1_0000 == b1 * 0x100 + b0
  {
    var w := b3 * 0x100_0000 + b2 * 0x1_0000 + b1 * 0x100 + b0;
    DivUnique(w, 0x100_0000, b3, b2 * 0x1_0000 + b1 * 0x100 + b0);
    DivUnique(w, 0x1_0000, b3 * 0x100 + b2, b1 * 0x100 + b0);
    DivUnique(w, 0x100, b3 * 0x1_0000 + b2 * 0x100 + b1, b0);
    DivUnique(b3 * 0x100 + b2, 0x100, b3, b2);
    DivUnique(b3 * 0x1_0000 + b2 * 0x100 + b1, 0x100, b3 * 0x100 + b2, b1);
  }

  lemma LittleRoundTrip(b: Bank, addr: Word, size: Size, v: Word)
    requires b.endian.Little? && b.base <= addr && addr - b.base + size <= |b.data|
    ensures BankRead(BankWrite(b, addr, size, v), addr, size) == Truncate(v, size)
  {
    var off, data := addr - b.base, BankWrite(b, addr, size, v).data;
    if size == 4 {
      SwapParts(v % 0x100, v / 0x100 % 0x100, v / 0x1_0000 % 0x100, v / 0x100_0000);
      assert data[off] == v % 0x100 && data[off + 1] == v / 0x100 % 0x100;
      assert data[off + 2] == v / 0x1_0000 % 0x100 && data[off + 3] == v / 0x100_0000;
      Quartered(v);
    } else if size == 2 {
      SwapParts(0, 0, v % 0x100, v / 0x100 % 0x100);
      assert data[off] == v % 0x100 && data[off + 1] == v / 0x100 % 0x100;
      Halved(v);
    }
  }

  /** A bank gives back what was stored in it, whatever its byte order, and keeps every other byte. */
  lemma BankRoundTrip(b: Bank, addr: Word, size: Size, v: Word)
    requires b.base <= addr && addr - b.base + size <= |b.data|
    ensures var c := BankWrite(b, addr, size, v);
            && BankRead(c, addr, size) == Truncate(v, size)
            && forall i :: 0 <= i < |b.data| && !(addr - b.base <= i < addr - b.base + size) ==> c.data[i] == b.data[i]
  {
    RawRoundTrip(b.data, addr - b.base, size, if b.endian.Big? then v else ByteSwapped(v, size));
    if b.endian.Little? {
      LittleRoundTrip(b, addr, size, v);
    }
  }

  /** A byte and a half at the address of a word: its most significant part in a big-endian bank, its least significant
      part in a little-endian one. */
  lemma ByteOrder(b: Bank, addr: Word)
    ensures var w := BankRead(b, addr, 4);
            && BankRead(b, addr, 1) == (if b.endian.Big? then w / 0x100_0000 else w % 0x100)
            && BankRead(b, addr, 2) == if b.endian.Big? then w / 0x1_0000 else w % 0x1_0000
  {
    var off := addr - b.base;
    var b0, b1 := ByteAt(b.data, off), ByteAt(b.data, off + 1);
    var b2, b3 := ByteAt(b.data, off + 2), ByteAt(b.data, off + 3);
    SwapParts(b0, b1, b2, b3);
    SwapParts(b3, b2, b1, b0);
  }

  /** Same ranges and attributes, possibly different bytes. */
  ghost predicate SameShape(a: seq<Bank>, b: seq<Bank>) {
    |a| == |b| && forall i :: 0 <= i < |a| ==> a[i].(data := b[i].data) == b[i]
  }

  lemma {:induction false} ScanShape(a: seq<Bank>, b: seq<Bank>, addr: Word)
    requires SameShape(a, b)
    ensures Scan(a, addr) == Scan(b, addr)
  {
    if a != [] {
      ScanShape(a[1..], b[1..], addr);
    }
  }
}
