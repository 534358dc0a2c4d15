/** The integer arithmetic of the SPARC V8 core, bit for bit as the emulator computes it:
    add/subtract with condition codes, multiply step, multiply and divide through the Y register. */
module Alu {
  import opened Words

  datatype Icc = Icc(n: bool, z: bool, v: bool, c: bool)

  predicate Top(w: Word) { w >= 0x8000_0000 }

  function B(p: bool): int { if p then 1 else 0 }

  /* Add and subtract */

  datatype AddOut = AddOut(value: Word, icc: Icc, tagTrap: bool)

  predicate IsSub(op3: nat) { op3 / 4 % 2 == 1 }
  predicate UsesCarry(op3: nat) { op3 / 8 % 2 == 1 }
  predicate IsTagged(op3: nat) { op3 / 32 % 2 == 1 }

  /** The add unit behind ADD, ADDX, SUB, SUBX, their cc forms and the tagged forms, selected by the
      opcode bits of `op3`. */
  function AddUnit(op3: nat, x: Word, y: Word, icc: Icc): AddOut {
    var tagSub := IsTagged(op3) && op3 % 2 == 1;
    var ySign: Word := if IsSub(op3) || tagSub then 0xFFFF_FFFF - y else y;
    var carry := (IsSub(op3) || tagSub) != (icc.c && !tagSub && UsesCarry(op3));
    var z: Word := (x + ySign + B(carry)) % 0x1_0000_0000;
    var tagOverflow := IsTagged(op3) && (x % 4 != 0 || y % 4 != 0);
    var v := (Top(x) && Top(ySign) && !Top(z)) || (!Top(x) && !Top(ySign) && Top(z)) || tagOverflow;
    var c := IsSub(op3) != ((Top(x) && Top(ySign)) || (!Top(z) && (Top(x) || Top(ySign))));
    AddOut(z, Icc(Top(z), z == 0, v, c), op3 / 2 % 2 == 1 && IsTagged(op3) && v)
  }

  /** Untagged addition is exact with the carry flag as the next digit, and N xor V is the sign of the
      true signed result. */
  lemma AddExact(op3: nat, x: Word, y: Word, icc: Icc)
    requires !IsTagged(op3) && !IsSub(op3)
    ensures var o := AddUnit(op3, x, y, icc); var cin := B(UsesCarry(op3) && icc.c);
            && x + y + cin == o.value + 0x1_0000_0000 * B(o.icc.c)
            && (o.icc.n != o.icc.v <==> Signed(x) + Signed(y) + cin < 0)
            && (o.icc.v <==> !(-0x8000_0000 <= Signed(x) + Signed(y) + cin < 0x8000_0000))
            && (o.icc.z <==> o.value == 0) && !o.tagTrap
  {
  }

  /** Untagged subtraction is exact with the carry flag as the borrow. */
  lemma SubExact(op3: nat, x: Word, y: Word, icc: Icc)
    requires !IsTagged(op3) && IsSub(op3)
    ensures var o := AddUnit(op3, x, y, icc); var bin := B(UsesCarry(op3) && icc.c);
            && x - y - bin == o.value - 0x1_0000_0000 * B(o.icc.c)
            && (o.icc.n != o.icc.v <==> Signed(x) - Signed(y) - bin < 0)
            && (o.icc.v <==> !(-0x8000_0000 <= Signed(x) - Signed(y) - bin < 0x8000_0000))
            && (o.icc.z <==> o.value == 0) && !o.tagTrap
  {
  }

  const ADDCC: nat := 0x10
  const ADDXCC: nat := 0x18
  const SUBCC: nat := 0x14
  const SUBXCC: nat := 0x1C

  /** One `first` instruction on the lowest words, then `next` up the number; lowest word first. */
  function Chain(first: nat, next: nat, xs: seq<Word>, ys: seq<Word>, icc: Icc): (r: (seq<Word>, Icc))
    requires |xs| == |ys|
    ensures |r.0| == |xs|
    decreases |xs|
  {
    if xs == [] then ([], icc)
    else
      var o := AddUnit(first, xs[0], ys[0], icc);
      var (zs, last) := Chain(next, next, xs[1..], ys[1..], o.icc);
      ([o.value] + zs, last)
  }

  function Number(ws: seq<Word>): nat {
    if ws == [] then 0 else ws[0] + 0x1_0000_0000 * Number(ws[1..])
  }

  function Base(n: nat): (r: nat)
    ensures r >= 1
  {
    if n == 0 then 1 else 0x1_0000_0000 * Base(n - 1)
  }

  lemma NumberCons(w: Word, ws: seq<Word>)
    ensures Number([w] + ws) == w + 0x1_0000_0000 * Number(ws)
  {
    assert ([w] + ws)[1..] == ws;
  }

  /** One more low word: its carry is the carry into the rest. */
  lemma CarryUp(x: int, y: int, cin: int, v: int, c: int, xs: int, ys: int, zs: int, over: int)
    requires x + y + cin == v + 0x1_0000_0000 * c && zs + over == xs + ys + c
    ensures v + 0x1_0000_0000 * zs + 0x1_0000_0000 * over == x + 0x1_0000_0000 * xs + (y + 0x1_0000_0000 * ys) + cin
  {
  }

  lemma BorrowUp(x: int, y: int, bin: int, v: int, c: int, xs: int, ys: int, zs: int, under: int)
    requires x - y - bin == v - 0x1_0000_0000 * c && zs - under == xs - ys - c
    ensures v + 0x1_0000_0000 * zs - 0x1_0000_0000 * under == x + 0x1_0000_0000 * xs - (y + 0x1_0000_0000 * ys) - bin
  {
  }

  lemma ChainHead(first: nat, next: nat, xs: seq<Word>, ys: seq<Word>, icc: Icc, o: AddOut)
    requires |xs| == |ys| > 0 && o == AddUnit(first, xs[0], ys[0], icc)
    ensures var (zs, last) := Chain(next, next, xs[1..], ys[1..], o.icc);
            && Chain(first, next, xs, ys, icc) == ([o.value] + zs, last)
            && Number([o.value] + zs) == o.value + 0x1_0000_0000 * Number(zs)
  {
    NumberCons(o.value, Chain(next, next, xs[1..], ys[1..], o.icc).0);
  }

  /** What a carry or borrow out of n words weighs. */
  function Over(c: bool, n: nat): nat {
    if c then Base(n) else 0
  }

  lemma {:induction false} AddChainFrom(first: nat, xs: seq<Word>, ys: seq<Word>, icc: Icc)
    requires |xs| == |ys| > 0 && (first == ADDCC || first == ADDXCC)
    ensures var (zs, last) := Chain(first, ADDXCC, xs, ys, icc);
            Number(zs) + Over(last.c, |xs|) == Number(xs) + Number(ys) + B(first == ADDXCC && icc.c)
    decreases |xs|
  {
    var o := AddUnit(first, xs[0], ys[0], icc);
    AddExact(first, xs[0], ys[0], icc);
    AddChainOn(first, xs, ys, icc, o);
  }

  lemma {:induction false} AddChainOn(first: nat, xs: seq<Word>, ys: seq<Word>, icc: Icc, o: AddOut)
    requires |xs| == |ys| > 0 && o == AddUnit(first, xs[0], ys[0], icc)
    requires xs[0] + ys[0] + B(first == ADDXCC && icc.c) == o.value + 0x1_0000_0000 * B(o.icc.c)
    ensures var (zs, last) := Chain(first, ADDXCC, xs, ys, icc);
            Number(zs) + Over(last.c, |xs|) == Number(xs) + Number(ys) + B(first == ADDXCC && icc.c)
    decreases |xs|, 0
  {
    ChainHead(first, ADDXCC, xs, ys, icc, o);
    var (zs, last) := Chain(ADDXCC, ADDXCC, xs[1..], ys[1..], o.icc);
    if |xs| > 1 {
      AddChainFrom(ADDXCC, xs[1..], ys[1..], o.icc);
    }
    CarryUp(xs[0], ys[0], B(first == ADDXCC && icc.c), o.value, B(o.icc.c),
            Number(xs[1..]), Number(ys[1..]), Number(zs),
            Over(last.c, |xs| - 1));
  }

  lemma {:induction false} SubChainFrom(first: nat, xs: seq<Word>, ys: seq<Word>, icc: Icc)
    requires |xs| == |ys| > 0 && (first == SUBCC || first == SUBXCC)
    ensures var (zs, last) := Chain(first, SUBXCC, xs, ys, icc);
            Number(zs) - Over(last.c, |xs|) == Number(xs) - Number(ys) - B(first == SUBXCC && icc.c)
    decreases |xs|
  {
    var o := AddUnit(first, xs[0], ys[0], icc);
    SubExact(first, xs[0], ys[0], icc);
    SubChainOn(first, xs, ys, icc, o);
  }

  lemma {:induction false} SubChainOn(first: nat, xs: seq<Word>, ys: seq<Word>, icc: Icc, o: AddOut)
    requires |xs| == |ys| > 0 && o == AddUnit(first, xs[0], ys[0], icc)
    requires xs[0] - ys[0] - B(first == SUBXCC && icc.c) == o.value - 0x1_0000_0000 * B(o.icc.c)
    ensures var (zs, last) := Chain(first, SUBXCC, xs, ys, icc);
            Number(zs) - Over(last.c, |xs|) == Number(xs) - Number(ys) - B(first == SUBXCC && icc.c)
    decreases |xs|, 0
  {
    ChainHead(first, SUBXCC, xs, ys, icc, o);
    var (zs, last) := Chain(SUBXCC, SUBXCC, xs[1..], ys[1..], o.icc);
    if |xs| > 1 {
      SubChainFrom(SUBXCC, xs[1..], ys[1..], o.icc);
    }
    BorrowUp(xs[0], ys[0], B(first == SUBXCC && icc.c), o.value, B(o.icc.c),
             Number(xs[1..]), Number(ys[1..]), Number(zs),
             Over(last.c, |xs| - 1));
  }

  /** ADDcc then ADDXcc up the words is exact multi-word addition with final carry; SUBcc then SUBXcc
      is exact subtraction, with a final borrow exactly when the first number is the smaller. */
  lemma MultiWordExact(xs: seq<Word>, ys: seq<Word>, icc: Icc)
    requires |xs| == |ys| > 0
    ensures var (zs, last) := Chain(ADDCC, ADDXCC, xs, ys, icc);
            Number(zs) + Over(last.c, |xs|) == Number(xs) + Number(ys)
    ensures var (zs, last) := Chain(SUBCC, SUBXCC, xs, ys, icc);
            && Number(zs) - Over(last.c, |xs|) == Number(xs) - Number(ys)
            && (last.c <==> Number(xs) < Number(ys))
  {
    AddChainFrom(ADDCC, xs, ys, icc);
    SubChainFrom(SUBCC, xs, ys, icc);
    NumberBound(Chain(SUBCC, SUBXCC, xs, ys, icc).0);
  }

  lemma {:induction false} NumberBound(ws: seq<Word>)
    ensures Number(ws) < Base(|ws|)
  {
    if ws != [] {
      NumberBound(ws[1..]);
    }
  }

  /* Branch conditions */

  function TestCc(cond: nat, icc: Icc): bool
    requires cond < 16
  {
    var k := cond % 8;
    var base := if k == 0 then false
                else if k == 1 then icc.z
                else if k == 2 then icc.z || icc.n != icc.v
                else if k == 3 then icc.n != icc.v
                else if k == 4 then icc.c || icc.z
                else if k == 5 then icc.c
                else if k == 6 then icc.n
                else icc.v;
    (cond >= 8) != base
  }

  /** After SUBcc a, b the branch conditions compare a with b. */
  lemma CompareAndBranch(a: Word, b: Word, before: Icc)
    ensures var icc := AddUnit(SUBCC, a, b, before).icc;
            && (TestCc(1, icc) <==> a == b)                   && (TestCc(9, icc) <==> a != b)
            && (TestCc(2, icc) <==> Signed(a) <= Signed(b))   && (TestCc(10, icc) <==> Signed(a) > Signed(b))
            && (TestCc(3, icc) <==> Signed(a) < Signed(b))    && (TestCc(11, icc) <==> Signed(a) >= Signed(b))
            && (TestCc(4, icc) <==> a <= b)                   && (TestCc(12, icc) <==> a > b)
            && (TestCc(5, icc) <==> a < b)                    && (TestCc(13, icc) <==> a >= b)
            && !TestCc(0, icc)                                && TestCc(8, icc)
  {
    SubExact(SUBCC, a, b, before);
  }

  /** After ADDcc the overflow conditions say whether the signed sum fits, the carry conditions whether the unsigned sum
      does, and the sign conditions speak of the word that is left. */
  lemma AddAndBranch(a: Word, b: Word, before: Icc)
    ensures var o := AddUnit(ADDCC, a, b, before);
            && (TestCc(7, o.icc) <==> !(-0x8000_0000 <= Signed(a) + Signed(b) < 0x8000_0000))
            && (TestCc(15, o.icc) <==> -0x8000_0000 <= Signed(a) + Signed(b) < 0x8000_0000)
            && (TestCc(5, o.icc) <==> a + b >= 0x1_0000_0000) && (TestCc(13, o.icc) <==> a + b < 0x1_0000_0000)
            && (TestCc(6, o.icc) <==> Signed(o.value) < 0) && (TestCc(14, o.icc) <==> Signed(o.value) >= 0)
            && (TestCc(1, o.icc) <==> o.value == 0)
  {
    AddExact(ADDCC, a, b, before);
  }

  /* Multiply step */

  datatype MulStep = MulStep(acc: Word, y: Word, icc: Icc)

  /** MULSCC with the accumulator as both rs1 and rd. */
  function Mulscc(s: MulStep, operand: Word): MulStep {
    var x: Word := s.acc / 2 + 0x8000_0000 * B(s.icc.v != s.icc.n);
    var y: Word := if s.y % 2 == 1 then operand else 0;
    var z: Word := (x + y) % 0x1_0000_0000;
    var v := (Top(x) && Top(y) && !Top(z)) || (!Top(x) && !Top(y) && Top(z));
    var c := (Top(x) && Top(y)) || (!Top(z) && (Top(x) || Top(y)));
    MulStep(z, s.y / 2 + s.acc % 2 * 0x8000_0000, Icc(Top(z), z == 0, v, c))
  }

  /** The accumulator with its true sign, which is N xor V. */
  function TrueAcc(s: MulStep): int {
    s.acc - 0x1_0000_0000 * B(s.icc.n != s.icc.v)
  }

  /** The accumulator and Y as one 64-bit register. */
  function Wide(s: MulStep): int {
    TrueAcc(s) * 0x1_0000_0000 + s.y
  }

  /** Halving with the sign shifted in, as MULSCC forms its first operand. */
  lemma HalvedAcc(acc: Word, neg: bool)
    ensures var x := acc / 2 + 0x8000_0000 * B(neg);
            0 <= x < 0x1_0000_0000 && Signed(x) == (acc - 0x1_0000_0000 * B(neg)) / 2
  {
  }

  lemma SumSigns(x: Word, y: Word, z: Word)
    requires z == (x + y) % 0x1_0000_0000
    ensures var v := (Top(x) && Top(y) && !Top(z)) || (!Top(x) && !Top(y) && Top(z));
            z - 0x1_0000_0000 * B(Top(z) != v) == Signed(x) + Signed(y)
  {
  }

  lemma TrueAccStep(s: MulStep, operand: Word)
    ensures TrueAcc(Mulscc(s, operand)) == TrueAcc(s) / 2 + (if s.y % 2 == 1 then Signed(operand) else 0)
  {
    var x: Word := s.acc / 2 + 0x8000_0000 * B(s.icc.v != s.icc.n);
    var y: Word := if s.y % 2 == 1 then operand else 0;
    HalvedAcc(s.acc, s.icc.v != s.icc.n);
    SumSigns(x, y, (x + y) % 0x1_0000_0000);
  }

  /** One step adds the operand at weight 2^33 if Y is odd, drops that bit, and halves. */
  lemma MulsccHalves(s: MulStep, operand: Word)
    ensures 2 * Wide(Mulscc(s, operand)) == Wide(s) + s.y % 2 * (0x2_0000_0000 * Signed(operand) - 1)
  {
    TrueAccStep(s, operand);
    assert s.y % 2 == 0 || s.y % 2 == 1;
  }

  function Steps(s: MulStep, operand: Word, n: nat): MulStep
    decreases n, operand
  {
    if n == 0 then s else Steps(Mulscc(s, operand), operand, n - 1)
  }

  lemma {:induction false} StepsLast(s: MulStep, operand: Word, n: nat)
    ensures Steps(s, operand, n + 1) == Mulscc(Steps(s, operand, n), operand)
    decreases n
  {
    if n > 0 {
      StepsLast(Mulscc(s, operand), operand, n - 1);
    }
  }

  lemma ModPlusMultiple(h: nat, c: nat, p: nat)
    requires p > 0
    ensures (h + c * p) % p == h % p
  {
    var q, r := h / p, h % p;
    assert h == q * p + r;
    assert (q + c) * p == q * p + c * p;
    DivUnique(h + c * p, p, q + c, r);
  }

  lemma LowBits(y: Word, top: int, n: nat)
    requires 0 < n <= 32 && 0 <= top <= 1
    ensures y % Pow2(n) == y % 2 + 2 * ((y / 2 + top * 0x8000_0000) % Pow2(n - 1))
  {
    HalveMod(y, Pow2(n - 1));
    if top == 1 {
      PowerSplit(n - 1);
      ModPlusMultiple(y / 2, Pow2(32 - n), Pow2(n - 1));
    }
  }

  lemma {:induction false} PowerSplit(k: nat)
    requires k <= 31
    ensures Pow2(31 - k) * Pow2(k) == 0x8000_0000
  {
    if k == 0 {
      Pow2Values();
    } else {
      PowerSplit(k - 1);
      assert Pow2(31 - (k - 1)) == 2 * Pow2(31 - k) && Pow2(k) == 2 * Pow2(k - 1);
    }
  }

  lemma DoubleBoth(p: int, w: int, wt: int, ws: int, u: int, bit: int, k: int)
    requires p * w == wt + u * k && 2 * wt == ws + bit * k
    ensures 2 * p * w == ws + (bit + 2 * u) * k
  {
    assert 2 * p * w == 2 * (p * w);
    assert (bit + 2 * u) * k == bit * k + 2 * (u * k);
  }

  /** n steps consume the n low bits of Y. */
  lemma {:induction false} StepsHalve(s: MulStep, operand: Word, n: nat)
    requires n <= 32
    ensures Pow2(n) * Wide(Steps(s, operand, n)) == Wide(s) + s.y % Pow2(n) * (0x2_0000_0000 * Signed(operand) - 1)
    decreases n
  {
    if n > 0 {
      var t := Mulscc(s, operand);
      var k := 0x2_0000_0000 * Signed(operand) - 1;
      MulsccHalves(s, operand);
      StepsHalve(t, operand, n - 1);
      LowBits(s.y, s.acc % 2, n);
      DoubleBoth(Pow2(n - 1), Wide(Steps(t, operand, n - 1)), Wide(t), Wide(s), t.y % Pow2(n - 1), s.y % 2, k);
    } else {
      assert s.y % 1 == 0;
    }
  }

  lemma CancelScale(p: int, w: int, ws: int, low: int, a: int, b: int)
    requires p == 0x1_0000_0000 && ws == a && low == a && p * w == ws + low * (0x2_0000_0000 * b - 1)
    ensures w == 2 * (a * b)
  {
    assert a * (0x2_0000_0000 * b - 1) == 0x2_0000_0000 * (a * b) - a;
  }

  lemma LastStep(u: MulStep, product: int)
    requires Wide(u) == 2 * product
    ensures Wide(Mulscc(u, 0)) == product
  {
    MulsccHalves(u, 0);
  }

  lemma ScaledProduct(s: MulStep, b: Word, w: int, p: nat)
    requires s.acc == 0 && s.icc.n == s.icc.v && p == 0x1_0000_0000
    requires p * w == Wide(s) + s.y % p * (0x2_0000_0000 * Signed(b) - 1)
    ensures w == 2 * (s.y * Signed(b))
  {
    CancelScale(p, w, Wide(s), s.y % p, s.y, Signed(b));
  }

  /** 32 multiply steps and a final step by 0 leave the exact product of unsigned Y and signed operand. */
  lemma MultiplyBySteps(a: Word, b: Word, icc: Icc)
    requires icc.n == icc.v
    ensures Wide(Mulscc(Steps(MulStep(0, a, icc), b, 32), 0)) == a * Signed(b)
  {
    var s := MulStep(0, a, icc);
    var u := Steps(s, b, 32);
    StepsHalve(s, b, 32);
    Pow2Values();
    ScaledProduct(s, b, Wide(u), Pow2(32));
    LastStep(u, a * Signed(b));
  }

  /* Multiply and divide */

  const TWO64: int := 0x1_0000_0000_0000_0000

  /** The product's low word, its high word (for Y) and the cc-form flags. */
  datatype MulOut = MulOut(value: Word, y: Word, icc: Icc)

  function Mul(signed: bool, a: Word, b: Word): MulOut {
    Split64((if signed then Signed(a) * Signed(b) else a * b) % TWO64)
  }

  function Split64(z: int): MulOut
    requires 0 <= z < TWO64
  {
    var lo: Word := z % 0x1_0000_0000;
    MulOut(lo, z / 0x1_0000_0000, Icc(Top(lo), lo == 0, false, false))
  }

  /** The multiply-step routine agrees with SMUL for a non-negative multiplier in Y, and with UMUL for
      a non-negative operand: accumulator and Y hold what MUL puts in Y and rd. */
  lemma StepsAgreeWithMul(a: Word, b: Word, icc: Icc, signed: bool)
    requires icc.n == icc.v
    requires if signed then !Top(a) else !Top(b)
    ensures var t := Mulscc(Steps(MulStep(0, a, icc), b, 32), 0); var m := Mul(signed, a, b);
            t.acc == m.y && t.y == m.value
  {
    MultiplyBySteps(a, b, icc);
    WideParts(Mulscc(Steps(MulStep(0, a, icc), b, 32), 0));
  }

  lemma WideParts(t: MulStep)
    ensures var m := Split64(Wide(t) % TWO64); t.acc == m.y && t.y == m.value
  {
    var k := B(t.icc.n != t.icc.v);
    assert Wide(t) + k * TWO64 == t.acc * 0x1_0000_0000 + t.y;
  }

  datatype DivOut = DivideByZero | Undefined | Quotient(value: Word, y: Word, icc: Icc)

  function Abs(a: int): nat { if a < 0 then -a else a }

  /** C++ division truncates toward zero. */
  function TruncDiv(a: int, b: int): int
    requires b != 0
  {
    var q := Abs(a) / Abs(b);
    if (a < 0) == (b < 0) then q else -q
  }

  function Signed64(z: int): int
    requires 0 <= z < TWO64
  {
    if z < 0x8000_0000_0000_0000 then z else z - TWO64
  }

  /** Divides Y:a by b and leaves the remainder in Y. The quotient is truncated to 32 bits, not clamped.
      -2^63 / -1 is undefined in the emulator. */
  function Div(signed: bool, y: Word, a: Word, b: Word): DivOut {
    var x := y * 0x1_0000_0000 + a;
    if b == 0 then DivideByZero
    else if signed then
      var sx, sb := Signed64(x), Signed(b);
      if sx == -0x8000_0000_0000_0000 && sb == -1 then Undefined
      else
        var q := TruncDiv(sx, sb);
        Quotient(q % 0x1_0000_0000, (sx - q * sb) % 0x1_0000_0000,
                 Icc(Top(q % 0x1_0000_0000), q == 0, false, false))
    else
      var q := x / b;
      Quotient(q % 0x1_0000_0000, x % b, Icc(Top(q % 0x1_0000_0000), q == 0, false, false))
  }

  lemma QuotientFits(y: Word, a: Word, b: Word, q: int, r: int)
    requires y * 0x1_0000_0000 + a == q * b + r && 0 <= r < b
    ensures q < 0x1_0000_0000 <==> y < b
  {
    if q >= 0x1_0000_0000 {
      MulMonotone(0x1_0000_0000, q, b);
    } else {
      MulMonotone(q, 0xFFFF_FFFF, b);
    }
  }

  lemma SmallerQuotientMisses(q: int, v: int, b: int)
    requires v < q && b > 0
    ensures v * b != q * b
  {
    MulMonotone(v, q - 1, b);
    assert (q - 1) * b == q * b - b;
  }

  /** UDIV satisfies dividend = quotient * divisor + Y exactly when the high word is below the divisor. */
  lemma UdivExact(y: Word, a: Word, b: Word)
    requires b != 0
    ensures var o := Div(false, y, a, b);
            y * 0x1_0000_0000 + a == o.value * b + o.y <==> y < b
  {
    var x := y * 0x1_0000_0000 + a;
    DivParts(x, b);
    UdivIdentity(x, y, a, b, x / b, x % b, x / b % 0x1_0000_0000);
  }

  lemma UdivIdentity(x: int, y: Word, a: Word, b: Word, q: int, r: int, v: int)
    requires x == y * 0x1_0000_0000 + a && x == q * b + r && 0 <= r < b
    requires (q < 0x1_0000_0000 ==> v == q) && (q >= 0x1_0000_0000 ==> v < q)
    ensures x == v * b + r <==> y < b
  {
    QuotientFits(y, a, b, q, r);
    if q >= 0x1_0000_0000 {
      SmallerQuotientMisses(q, v, b);
    }
  }

  lemma DivParts(x: int, b: int)
    requires b > 0
    ensures x == x / b * b + x % b && 0 <= x % b < b
  {
  }

  lemma MulMonotone(p: int, q: int, b: int)
    requires p <= q && b >= 0
    ensures p * b <= q * b
  {
    assert (q - p) * b >= 0;
  }

  /** UMUL then UDIV, through Y, is the identity. */
  lemma UmulUdiv(a: Word, b: Word)
    requires b != 0
    ensures var m := Mul(false, a, b); var d := Div(false, m.y, m.value, b);
            d.Quotient? && d.value == a && d.y == 0
  {
    ProductBound(a, b);
    DivUnique(a * b, b, a, 0);
  }

  lemma ProductBound(a: Word, b: Word)
    ensures 0 <= a * b < TWO64
  {
    MulMonotone(a, 0xFFFF_FFFF, b);
    MulMonotone(0, a, b);
  }

  lemma SignedProductBound(a: Word, b: Word)
    ensures -0x4000_0000_0000_0000 <= Signed(a) * Signed(b) <= 0x4000_0000_0000_0000
  {
    var x: int, y: int := Abs(Signed(a)), Abs(Signed(b));
    MulMonotone(x, 0x8000_0000, y);
    MulMonotone(0, x, y);
    assert Signed(a) * Signed(b) == x * y || Signed(a) * Signed(b) == -(x * y);
  }

  lemma TruncDivOfProduct(a: int, b: int)
    requires b != 0
    ensures TruncDiv(a * b, b) == a
  {
    DivUnique(Abs(a) * Abs(b), Abs(b), Abs(a), 0);
    assert Abs(a * b) == Abs(a) * Abs(b);
    assert a > 0 && b > 0 ==> a * b > 0;
    assert a < 0 && b < 0 ==> a * b > 0;
    assert a < 0 && b > 0 ==> a * b < 0;
    assert a > 0 && b < 0 ==> a * b < 0;
  }

  /** SMUL then SDIV, through Y, is the identity. */
  lemma SmulSdiv(a: Word, b: Word)
    requires b != 0
    ensures var m := Mul(true, a, b); var d := Div(true, m.y, m.value, b);
            d.Quotient? && d.value == a && d.y == 0
  {
    var p := Signed(a) * Signed(b);
    SignedProductBound(a, b);
    var z := p % TWO64;
    assert Signed64(z) == p;
    TruncDivOfProduct(Signed(a), Signed(b));
  }

  /** The truncated quotient is a signed 32-bit number. */
  predicate SignedQuotientFits(x: int, b: int) {
    if (x < 0) == (b < 0) then Abs(x) < 0x8000_0000 * Abs(b) else Abs(x) < 0x8000_0001 * Abs(b)
  }

  lemma QuotientBelow(m: nat, d: nat, limit: nat)
    requires d > 0
    ensures m / d < limit <==> m < limit * d
  {
    var q := m / d;
    assert m == q * d + m % d;
    if q < limit {
      MulMonotone(q, limit - 1, d);
      assert (limit - 1) * d == limit * d - d;
    } else {
      MulMonotone(limit, q, d);
    }
  }

  lemma TruncDivRange(x: int, b: int)
    requires b != 0
    ensures -0x8000_0000 <= TruncDiv(x, b) < 0x8000_0000 <==> SignedQuotientFits(x, b)
  {
    QuotientBelow(Abs(x), Abs(b), 0x8000_0000);
    QuotientBelow(Abs(x), Abs(b), 0x8000_0001);
  }

  lemma TruncRemainder(x: int, b: int)
    requires b != 0
    ensures Abs(x - TruncDiv(x, b) * b) < Abs(b)
  {
    var q, r := Abs(x) / Abs(b), Abs(x) % Abs(b);
    assert Abs(x) == q * Abs(b) + r;
    assert x < 0 ==> x - TruncDiv(x, b) * b == -r;
    assert x >= 0 ==> x - TruncDiv(x, b) * b == r;
  }

  lemma SignedOfMod(q: int)
    ensures Signed(q % 0x1_0000_0000) == q <==> -0x8000_0000 <= q < 0x8000_0000
  {
  }

  lemma OtherQuotientMisses(q: int, v: int, b: int)
    requires v != q && b != 0
    ensures v * b != q * b
  {
    assert (v - q) * b != 0;
    assert (v - q) * b == v * b - q * b;
  }

  /** SDIV satisfies dividend = quotient * divisor + Y, all signed, exactly when the quotient fits. */
  lemma SdivExact(y: Word, a: Word, b: Word)
    requires b != 0 && Div(true, y, a, b).Quotient?
    ensures var o, x := Div(true, y, a, b), Signed64(y * 0x1_0000_0000 + a);
            x == Signed(o.value) * Signed(b) + Signed(o.y) <==> SignedQuotientFits(x, Signed(b))
  {
    var x, d := Signed64(y * 0x1_0000_0000 + a), Signed(b);
    var q := TruncDiv(x, d);
    SdivParts(x, d, q);
    SignedOfMod(q);
    SignedOfMod(x - q * d);
    if Signed(q % 0x1_0000_0000) != q {
      OtherQuotientMisses(q, Signed(q % 0x1_0000_0000), d);
    }
  }

  lemma SdivParts(x: int, d: int, q: int)
    requires d != 0 && -0x8000_0000 <= d < 0x8000_0000 && q == TruncDiv(x, d)
    ensures -0x8000_0000 <= x - q * d < 0x8000_0000
    ensures -0x8000_0000 <= q < 0x8000_0000 <==> SignedQuotientFits(x, d)
  {
    TruncRemainder(x, d);
    TruncDivRange(x, d);
  }

  /** Tagged subtraction: the difference modulo 2^32, with the carry set exactly when there is no borrow. */
  lemma TaggedSubtract(op3: nat, x: Word, y: Word, icc: Icc)
    requires IsTagged(op3) && op3 % 2 == 1 && !IsSub(op3)
    ensures var o := AddUnit(op3, x, y, icc); o.value == (x - y) % 0x1_0000_0000 && (o.icc.c <==> x >= y)
  {
  }

  const TADDCC: nat := 0x20
  const TSUBCC: nat := 0x21
  const TADDCCTV: nat := 0x22
  const TSUBCCTV: nat := 0x23

  predicate TagsClear(x: Word, y: Word) {
    x % 4 == 0 && y % 4 == 0
  }

  /** Tagged arithmetic overflows if a tag is not 0 or the signed result does not fit, and then the TV forms trap. */
  lemma TaggedExact(op3: nat, x: Word, y: Word, icc: Icc)
    requires op3 == TADDCC || op3 == TSUBCC || op3 == TADDCCTV || op3 == TSUBCCTV
    ensures var o := AddUnit(op3, x, y, icc);
            var r := if op3 % 2 == 1 then Signed(x) - Signed(y) else Signed(x) + Signed(y);
            && (r - o.value) % 0x1_0000_0000 == 0 && (o.icc.z <==> o.value == 0) && (o.icc.n <==> Signed(o.value) < 0)
            && (o.icc.v <==> !TagsClear(x, y) || !(-0x8000_0000 <= r < 0x8000_0000))
            && (o.tagTrap <==> op3 >= TADDCCTV && o.icc.v)
  {
  }

  /** The product is exact, with its high word in Y; the flags speak of the low word. */
  lemma MulExact(signed: bool, a: Word, b: Word)
    ensures var o := Mul(signed, a, b);
            var p := if signed then Signed(a) * Signed(b) else a * b;
            && (if signed then Signed(o.y) else o.y) * 0x1_0000_0000 + o.value == p
            && (o.icc.n <==> Signed(o.value) < 0) && (o.icc.z <==> o.value == 0) && !o.icc.v && !o.icc.c
  {
    if signed {
      SignedProductBound(a, b);
      SplitSigned(Signed(a) * Signed(b));
    } else {
      ProductBound(a, b);
    }
  }

  lemma SplitSigned(p: int)
    requires -0x4000_0000_0000_0000 <= p <= 0x4000_0000_0000_0000
    ensures var o := Split64(p % TWO64); Signed(o.y) * 0x1_0000_0000 + o.value == p
  {
    if p >= 0 {
      assert p % TWO64 == p;
    } else {
      assert p % TWO64 == p + TWO64;
    }
  }

  /** The flags of a division speak of its quotient. */
  lemma DivFlags(signed: bool, y: Word, a: Word, b: Word)
    requires Div(signed, y, a, b).Quotient?
    ensures var o := Div(signed, y, a, b);
            (o.icc.n <==> Signed(o.value) < 0) && (o.icc.z ==> o.value == 0) && !o.icc.v && !o.icc.c
  {
  }

  /* Logic and shifts */

  /** AND, OR and XOR, with the second operand complemented in the N forms. */
  function Logic(op3: nat, x: Word, y: Word): Word {
    var z: Word := if op3 / 4 % 2 == 1 then 0xFFFF_FFFF - y else y;
    if op3 % 4 == 1 then BitAnd(x, z) else if op3 % 4 == 2 then Or32(x, z) else Xor32(x, z)
  }

  function LogicIcc(z: Word): Icc {
    Icc(Top(z), z == 0, false, false)
  }

  /** The operation of the low three opcode bits on one bit. */
  predicate LogicBit(op3: nat, x: bool, y: bool) {
    match op3 % 8
    case 1 => x && y
    case 2 => x || y
    case 3 => x != y
    case 5 => x && !y
    case 6 => x || !y
    case _ => x == y
  }

  /** AND, OR, XOR, ANDN, ORN and XNOR work bit by bit. */
  lemma LogicBits(op3: nat, x: Word, y: Word, i: nat)
    requires i < 32 && op3 % 4 != 0
    ensures Bit(Logic(op3, x, y), i) <==> LogicBit(op3, Bit(x, i), Bit(y, i))
  {
    var z: Word := if op3 / 4 % 2 == 1 then 0xFFFF_FFFF - y else y;
    OperandBit(op3, y, z, i);
    BitByBit(x, z, i);
    SelectBits(op3);
  }

  lemma OperandBit(op3: nat, y: Word, z: Word, i: nat)
    requires i < 32 && z == if op3 / 4 % 2 == 1 then 0xFFFF_FFFF - y else y
    ensures Bit(z, i) <==> (Bit(y, i) != (op3 / 4 % 2 == 1))
  {
    Pow2Values();
    BitOfComplement(y, 32, i);
  }

  lemma SelectBits(op3: nat)
    ensures op3 % 4 == op3 % 8 % 4 && op3 / 4 % 2 == op3 % 8 / 4
  {
    var q, r := op3 / 8, op3 % 8;
    DivUnique(op3, 4, 2 * q + r / 4, r % 4);
    DivUnique(2 * q + r / 4, 2, q, r / 4);
  }

  /** The flags of a logical instruction compare its result with 0. */
  lemma LogicCompares(z: Word)
    ensures var icc := LogicIcc(z);
            && (TestCc(1, icc) <==> z == 0) && (TestCc(9, icc) <==> z != 0)
            && (TestCc(2, icc) <==> Signed(z) <= 0) && (TestCc(10, icc) <==> Signed(z) > 0)
            && (TestCc(3, icc) <==> Signed(z) < 0) && (TestCc(11, icc) <==> Signed(z) >= 0)
            && (TestCc(6, icc) <==> Signed(z) < 0) && (TestCc(14, icc) <==> Signed(z) >= 0)
            && !TestCc(5, icc) && !TestCc(7, icc)
  {
  }

  datatype ShiftKind = Left | Right | Arithmetic

  lemma QuotientSplit(x: int, p: int, q: int)
    requires p > 0 && q > 0 && 0 <= x < p * q
    ensures 0 <= x / p < q
  {
    DivParts(x, p);
    if x / p >= q {
      MulMonotone(q, x / p, p);
    }
  }

  /** The arithmetic shift fills in ones from the left; by 0 it changes nothing. */
  function Shift(kind: ShiftKind, x: Word, n: nat): Word
    requires n < 32
  {
    Pow2Values();
    Pow2Sum(n, 32 - n);
    QuotientSplit(x, Pow2(n), Pow2(32 - n));
    AtLeastOneMultiple(Pow2(n), Pow2(32 - n));
    if kind.Left? then x * Pow2(n) % 0x1_0000_0000
    else if kind.Right? || !Top(x) || n == 0 then x / Pow2(n)
    else x / Pow2(n) + (0x1_0000_0000 - Pow2(32 - n))
  }

  lemma QuotientShift(s: int, p: int, q: int)
    requires p > 0
    ensures (s + p * q) / p == s / p + q
  {
    var k, r := s / p, s % p;
    assert s == k * p + r;
    DivUnique(s + p * q, p, k + q, r);
  }

  /** The logical shifts move the bits and fill in zeros. */
  lemma ShiftBits(x: Word, n: nat, i: nat)
    requires n < 32 && i < 32
    ensures Bit(Shift(Left, x, n), i) <==> i >= n && Bit(x, i - n)
    ensures Bit(Shift(Right, x, n), i) <==> Bit(x, i + n)
  {
    Pow2Values();
    BitsUp(x, n, i);
    BitOfMod(x * Pow2(n), 32, i);
    BitsDown(x, n, i);
  }

  /** An arithmetic shift right divides, rounding down. */
  lemma SraDivides(x: Word, n: nat)
    requires n < 32
    ensures Signed(Shift(Arithmetic, x, n)) == Signed(x) / Pow2(n)
  {
    Pow2Values();
    Pow2Sum(n, 32 - n);
    SraParts(x, Signed(x), n, Pow2(n), Pow2(32 - n));
  }

  lemma SraParts(x: Word, s: int, n: nat, p: int, q: int)
    requires n < 32 && p == Pow2(n) && q == Pow2(32 - n) && p * q == 0x1_0000_0000 && s == Signed(x)
    ensures Signed(Shift(Arithmetic, x, n)) == s / p
  {
    if Top(x) {
      QuotientShift(s, p, q);
      NegativeQuotient(s, p);
    } else {
      PositiveQuotient(s, p);
    }
  }

  lemma NegativeQuotient(s: int, p: int)
    requires p > 0 && -0x8000_0000 <= s < 0
    ensures -0x8000_0000 <= s / p < 0
  {
    DivParts(s, p);
    if s / p < -0x8000_0000 {
      MulMonotone(s / p, -0x8000_0001, p);
    } else if s / p >= 0 {
      MulMonotone(0, s / p, p);
    }
  }

  lemma PositiveQuotient(s: int, p: int)
    requires p > 0 && 0 <= s < 0x8000_0000
    ensures 0 <= s / p < 0x8000_0000
  {
    DivParts(s, p);
    if s / p < 0 {
      MulMonotone(s / p, -1, p);
    } else if s / p >= 0x8000_0000 {
      MulMonotone(0x8000_0000, s / p, p);
    }
  }

  /** The accumulator and Y hold the wide value modulo 2^64. */
  lemma WideIsPair(t: MulStep)
    ensures t.acc * 0x1_0000_0000 + t.y == Wide(t) % TWO64
  {
    PairOfWide(t.acc, t.y, B(t.icc.n != t.icc.v));
  }

  lemma PairOfWide(acc: Word, y: Word, k: int)
    ensures acc * 0x1_0000_0000 + y == ((acc - 0x1_0000_0000 * k) * 0x1_0000_0000 + y) % TWO64
  {
    DivUnique((acc - 0x1_0000_0000 * k) * 0x1_0000_0000 + y, TWO64, -k, acc * 0x1_0000_0000 + y);
  }
}
