/** Machine words of the emulated SPARC V8: 32-bit unsigned values kept as integers,
    with the bitwise operators the emulator applies to them. */
module Words {

  type Word = x: int | 0 <= x < 0x1_0000_0000
  type Byte = x: int | 0 <= x < 256

  datatype Option<+T> = None | Some(value: T)

  /** The two's complement reading of a word. */
  function Signed(w: Word): int {
    if w < 0x8000_0000 then w else w - 0x1_0000_0000
  }

  function Pow2(n: nat): (r: nat)
    ensures r >= 1
  {
    if n == 0 then 1 else 2 * Pow2(n - 1)
  }

  /** Bit `i` of `w`. */
  predicate Bit(w: nat, i: nat) {
    w / Pow2(i) % 2 == 1
  }

  function BitAnd(a: nat, b: nat): (r: nat)
    ensures r <= a && r <= b
  {
    if a == 0 || b == 0 then 0 else 2 * BitAnd(a / 2, b / 2) + (a % 2) * (b % 2)
  }

  function BitOr(a: nat, b: nat): (r: nat)
    ensures a <= r && b <= r && r <= a + b
    decreases a + b
  {
    if a == 0 then b else if b == 0 then a
    else 2 * BitOr(a / 2, b / 2) + (if a % 2 == 1 || b % 2 == 1 then 1 else 0)
  }

  function BitXor(a: nat, b: nat): (r: nat)
    ensures r <= a + b
    decreases a + b
  {
    if a == 0 then b else if b == 0 then a
    else 2 * BitXor(a / 2, b / 2) + (if a % 2 != b % 2 then 1 else 0)
  }

  /** Or and exclusive or stay inside the width of their operands. */
  lemma {:induction false} BitWidth(n: nat, a: nat, b: nat)
    requires a < Pow2(n) && b < Pow2(n)
    ensures BitOr(a, b) < Pow2(n) && BitXor(a, b) < Pow2(n)
  {
    if a != 0 && b != 0 {
      BitWidth(n - 1, a / 2, b / 2);
    }
  }

  lemma Pow2Values()
    ensures Pow2(12) == 0x1000 && Pow2(18) == 0x4_0000 && Pow2(20) == 0x10_0000
    ensures Pow2(24) == 0x100_0000 && Pow2(32) == 0x1_0000_0000
  {
    assert Pow2(6) == 64;
    assert Pow2(12) == 0x1000;
    assert Pow2(18) == 0x4_0000;
    assert Pow2(24) == 0x100_0000;
    assert Pow2(30) == 0x4000_0000;
  }

  function Xor32(a: Word, b: Word): Word {
    Pow2Values();
    BitWidth(32, a, b);
    BitXor(a, b)
  }

  function Or32(a: Word, b: Word): Word {
    Pow2Values();
    BitWidth(32, a, b);
    BitOr(a, b)
  }

  lemma {:induction false} Pow2Sum(a: nat, b: nat)
    ensures Pow2(a + b) == Pow2(a) * Pow2(b)
  {
    if a > 0 {
      Pow2Sum(a - 1, b);
    }
  }

  lemma {:induction false} BitAndOnes(n: nat, v: nat)
    requires v < Pow2(n)
    ensures BitAnd(v, Pow2(n) - 1) == v
  {
    if n > 0 && v > 0 {
      BitAndOnes(n - 1, v / 2);
      assert (Pow2(n) - 1) / 2 == Pow2(n - 1) - 1;
    }
  }

  /** Masking with n-k high ones clears exactly the k low bits. */
  lemma {:induction false} BitAndHighMask(n: nat, k: nat, v: nat)
    requires k <= n && v < Pow2(n)
    ensures Pow2(k) <= Pow2(n)
    ensures BitAnd(v, Pow2(n) - Pow2(k)) == v - v % Pow2(k)
  {
    if k == 0 {
      BitAndOnes(n, v);
    } else {
      BitAndHighMask(n - 1, k - 1, v / 2);
      var p, h := Pow2(k - 1), v / 2;
      assert (Pow2(n) - Pow2(k)) / 2 == Pow2(n - 1) - p;
      assert BitAnd(v, Pow2(n) - Pow2(k)) == 2 * (h - h % p);
      HalveMod(v, p);
    }
  }

  lemma HalveMod(v: nat, p: nat)
    requires p > 0
    ensures v % (2 * p) == 2 * (v / 2 % p) + v % 2
  {
    var q, r := v / 2 / p, v / 2 % p;
    assert v / 2 == p * q + r;
    assert q * (2 * p) == 2 * (p * q);
    DivUnique(v, 2 * p, q, 2 * r + v % 2);
  }

  lemma AtLeastOneMultiple(k: int, d: int)
    requires k >= 1 && d > 0
    ensures k * d >= d
  {
    assert (k - 1) * d >= 0;
  }

  /** Division with remainder is unique. */
  lemma DivUnique(v: int, d: int, q: int, r: int)
    requires d > 0 && v == q * d + r && 0 <= r < d
    ensures v / d == q && v % d == r
  {
    var a, m := v / d, v % d;
    assert v == a * d + m;
    if a > q {
      AtLeastOneMultiple(a - q, d);
    } else if a < q {
      AtLeastOneMultiple(q - a, d);
    }
  }

  lemma HalveDiv(v: nat, p: nat)
    requires p > 0
    ensures v / (2 * p) == v / 2 / p
  {
    var q, r := v / 2 / p, v / 2 % p;
    assert v / 2 == p * q + r;
    assert q * (2 * p) == 2 * (p * q);
    DivUnique(v, 2 * p, q, 2 * r + v % 2);
  }

  lemma BitHalve(v: nat, i: nat)
    requires i > 0
    ensures Bit(v, i) <==> Bit(v / 2, i - 1)
  {
    HalveDiv(v, Pow2(i - 1));
  }

  /** And, or and exclusive or work bit by bit. */
  lemma {:induction false} BitByBit(a: nat, b: nat, i: nat)
    ensures Bit(BitAnd(a, b), i) <==> Bit(a, i) && Bit(b, i)
    ensures Bit(BitOr(a, b), i) <==> Bit(a, i) || Bit(b, i)
    ensures Bit(BitXor(a, b), i) <==> Bit(a, i) != Bit(b, i)
    decreases i
  {
    if i > 0 {
      BitHalve(a, i);
      BitHalve(b, i);
      BitHalve(BitAnd(a, b), i);
      BitHalve(BitOr(a, b), i);
      BitHalve(BitXor(a, b), i);
      BitByBit(a / 2, b / 2, i - 1);
      Halves(a, b);
    } else {
      LowestBits(a, b);
    }
  }

  lemma Halves(a: nat, b: nat)
    ensures BitAnd(a, b) / 2 == BitAnd(a / 2, b / 2) && BitOr(a, b) / 2 == BitOr(a / 2, b / 2)
    ensures BitXor(a, b) / 2 == BitXor(a / 2, b / 2)
  {
    LowProduct(a % 2, b % 2);
  }

  lemma LowProduct(x: nat, y: nat)
    requires x < 2 && y < 2
    ensures x * y == if x == 1 && y == 1 then 1 else 0
  {
  }

  lemma LowestBit(v: nat)
    ensures Bit(v, 0) <==> v % 2 == 1
  {
  }

  lemma LowestParts(a: nat, b: nat)
    ensures BitAnd(a, b) % 2 == (a % 2) * (b % 2)
    ensures BitOr(a, b) % 2 == if a % 2 == 1 || b % 2 == 1 then 1 else 0
    ensures BitXor(a, b) % 2 == if a % 2 != b % 2 then 1 else 0
  {
    LowProduct(a % 2, b % 2);
    Parity(BitAnd(a / 2, b / 2), (a % 2) * (b % 2));
  }

  lemma Parity(x: nat, p: nat)
    requires p < 2
    ensures (2 * x + p) % 2 == p
  {
  }

  lemma LowestBits(a: nat, b: nat)
    ensures Bit(BitAnd(a, b), 0) <==> Bit(a, 0) && Bit(b, 0)
    ensures Bit(BitOr(a, b), 0) <==> Bit(a, 0) || Bit(b, 0)
    ensures Bit(BitXor(a, b), 0) <==> Bit(a, 0) != Bit(b, 0)
  {
    LowProduct(a % 2, b % 2);
    LowestParts(a, b);
    LowestBit(a);
    LowestBit(b);
    LowestBit(BitAnd(a, b));
    LowestBit(BitOr(a, b));
    LowestBit(BitXor(a, b));
  }

  /** Or-ing a number below a power of two into a multiple of it adds it. */
  lemma {:induction false} BitOrAdds(k: nat, a: nat, b: nat)
    requires a < Pow2(k) && b % Pow2(k) == 0
    ensures BitOr(a, b) == a + b
  {
    if k > 0 && a != 0 && b != 0 {
      HalveMod(b, Pow2(k - 1));
      BitOrAdds(k - 1, a / 2, b / 2);
    }
  }

  /** Taking a number modulo a power of two keeps its low bits. */
  lemma {:induction false} BitOfMod(v: nat, k: nat, i: nat)
    requires i < k
    ensures Bit(v % Pow2(k), i) <==> Bit(v, i)
    decreases i
  {
    HalveMod(v, Pow2(k - 1));
    var m := v % Pow2(k);
    assert m / 2 == v / 2 % Pow2(k - 1) && m % 2 == v % 2;
    if i > 0 {
      BitHalve(v, i);
      BitHalve(m, i);
      BitOfMod(v / 2, k - 1, i - 1);
    } else {
      LowestBit(v);
      LowestBit(m);
    }
  }

  /** Multiplying by a power of two moves the bits up. */
  lemma {:induction false} BitsUp(v: nat, n: nat, i: nat)
    ensures v * Pow2(n) >= 0 && (Bit(v * Pow2(n), i) <==> i >= n && Bit(v, i - n))
    decreases n
  {
    if n > 0 {
      var w := v * Pow2(n - 1);
      BitsUp(v, n - 1, if i > 0 then i - 1 else 0);
      assert v * Pow2(n) == 2 * w;
      if i > 0 {
        BitHalve(2 * w, i);
      } else {
        LowestBit(2 * w);
      }
    } else {
      assert v * Pow2(0) == v;
    }
  }

  lemma NotNegative(v: nat, p: nat)
    requires p > 0
    ensures v / p >= 0
  {
  }

  /** Dividing by one moves them down. */
  lemma {:induction false} BitsDown(v: nat, n: nat, i: nat)
    ensures v / Pow2(n) >= 0 && (Bit(v / Pow2(n), i) <==> Bit(v, i + n))
    decreases n
  {
    NotNegative(v, Pow2(n));
    if n > 0 {
      HalveDiv(v, Pow2(n - 1));
      BitsDown(v / 2, n - 1, i);
      BitHalve(v, i + n);
    }
  }

  lemma HalveComplement(p: nat, v: nat)
    requires v < 2 * p
    ensures (2 * p - 1 - v) / 2 == p - 1 - v / 2 && (2 * p - 1 - v) % 2 == 1 - v % 2
  {
  }

  /** The complement has the other bits. */
  lemma {:induction false} BitOfComplement(v: nat, n: nat, i: nat)
    requires i < n && v < Pow2(n)
    ensures Bit(Pow2(n) - 1 - v, i) <==> !Bit(v, i)
    decreases i
  {
    var c := Pow2(n) - 1 - v;
    HalveComplement(Pow2(n - 1), v);
    if i > 0 {
      BitHalve(v, i);
      BitHalve(c, i);
      BitOfComplement(v / 2, n - 1, i - 1);
    } else {
      LowestBit(v);
      LowestBit(c);
    }
  }
}
