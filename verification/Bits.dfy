/** Fixed-width words and the bitwise operators of the source, defined on
    natural numbers bit by bit, so that address arithmetic and flag
    arithmetic can meet in one proof. */
module Bits {

  type u8 = x: int | 0 <= x < 0x100
  type u32 = x: int | 0 <= x < 0x1_0000_0000

  const WRAP: int := 0x1_0000_0000

  function Pow2(k: nat): (p: nat)
    ensures p >= 1
  {
    if k == 0 then 1 else 2 * Pow2(k - 1)
  }

  /** The C operator `|`. */
  function Or(a: nat, b: nat): nat
    decreases a + b
  {
    if a == 0 && b == 0 then 0
    else (if a % 2 == 1 || b % 2 == 1 then 1 else 0) + 2 * Or(a / 2, b / 2)
  }

  /** The C operator `&`. */
  function And(a: nat, b: nat): nat
  {
    if a == 0 then 0
    else (if a % 2 == 1 && b % 2 == 1 then 1 else 0) + 2 * And(a / 2, b / 2)
  }

  /** Bit `k` of `x`. */
  predicate Bit(x: nat, k: nat) {
    if k == 0 then x % 2 == 1 else Bit(x / 2, k - 1)
  }

  /** A bit is a binary digit. */
  lemma {:induction false} BitIsDigit(x: nat, k: nat)
    ensures Bit(x, k) <==> x / Pow2(k) % 2 == 1
  {
    if k > 0 {
      BitIsDigit(x / 2, k - 1);
      DivHalf(x, Pow2(k - 1));
    }
  }

  lemma DivHalf(x: nat, p: nat)
    requires p >= 1
    ensures x / (2 * p) == x / 2 / p
  {
    var h := x / 2;
    assert h == h / p * p + h % p;
    assert x == h / p * (2 * p) + (x % 2 + 2 * (h % p));
    ModUnique(x, 2 * p, h / p, x % 2 + 2 * (h % p));
  }

  /** `|` has the bits of either operand. */
  lemma {:induction false} OrBits(a: nat, b: nat, k: nat)
    ensures Bit(Or(a, b), k) <==> Bit(a, k) || Bit(b, k)
    decreases a + b
  {
    if a == 0 && b == 0 {
      ZeroBits(k);
    } else {
      OrStep(0, a, b);
      if k > 0 {
        OrBits(a / 2, b / 2, k - 1);
      }
    }
  }

  /** `&` has the bits of both. */
  lemma {:induction false} AndBits(a: nat, b: nat, k: nat)
    ensures Bit(And(a, b), k) <==> Bit(a, k) && Bit(b, k)
  {
    if a == 0 {
      ZeroBits(k);
    } else if k > 0 {
      AndBits(a / 2, b / 2, k - 1);
    }
  }

  lemma {:induction false} ZeroBits(k: nat)
    ensures !Bit(0, k)
  {
    if k > 0 {
      ZeroBits(k - 1);
    }
  }

  // ----- Bytes of a word

  /** Byte `j` of a word, lowest first. */
  function ByteOf(w: u32, j: nat): u8 {
    if j == 0 then w % 0x100
    else if j == 1 then w / 0x100 % 0x100
    else if j == 2 then w / 0x1_0000 % 0x100
    else w / 0x100_0000
  }

  function WordOf(b0: int, b1: int, b2: int, b3: int): int {
    b0 + 0x100 * b1 + 0x1_0000 * b2 + 0x100_0000 * b3
  }

  /** A word is put together from four bytes in one way only, lowest first. */
  lemma BytesOfWord(w: u32, b0: u8, b1: u8, b2: u8, b3: u8)
    ensures ByteOf(w, 0) == b0 && ByteOf(w, 1) == b1 && ByteOf(w, 2) == b2 && ByteOf(w, 3) == b3
            <==> w == b0 + 0x100 * b1 + 0x1_0000 * b2 + 0x100_0000 * b3
  {
    DivTwice(w);
    if w == b0 + 0x100 * b1 + 0x1_0000 * b2 + 0x100_0000 * b3 {
      WordOfBytes(b0, b1, b2, b3);
    }
  }

  /** A word is its four bytes. */
  lemma WordOfBytes(b0: u8, b1: u8, b2: u8, b3: u8)
    ensures 0 <= WordOf(b0, b1, b2, b3) < WRAP
    ensures var w: u32 := WordOf(b0, b1, b2, b3);
            ByteOf(w, 0) == b0 && ByteOf(w, 1) == b1 && ByteOf(w, 2) == b2 && ByteOf(w, 3) == b3
  {
    var w := WordOf(b0, b1, b2, b3);
    assert w == 0x100 * (b1 + 0x100 * b2 + 0x1_0000 * b3) + b0;
    assert w == 0x1_0000 * (b2 + 0x100 * b3) + (b0 + 0x100 * b1);
    assert w == 0x100_0000 * b3 + (b0 + 0x100 * b1 + 0x1_0000 * b2);
    assert w / 0x100 == b1 + 0x100 * (b2 + 0x100 * b3);
  }

  lemma DivTwice(w: nat)
    ensures w / 0x1_0000 == w / 0x100 / 0x100 && w / 0x100_0000 == w / 0x1_0000 / 0x100
  {
  }

  // ----- `|` as addition

  lemma {:induction false} OrZero(a: nat)
    ensures Or(a, 0) == a
  {
    if a > 0 {
      OrZero(a / 2);
    }
  }

  lemma {:induction false} OrZeroLeft(b: nat)
    ensures Or(0, b) == b
  {
    if b > 0 {
      OrZeroLeft(b / 2);
    }
  }

  /** `q` shifted left by `k` bits. */
  function Shl(q: nat, k: nat): nat {
    if k == 0 then q else 2 * Shl(q, k - 1)
  }

  /** Or-ing a value below 2^k touches only the low k bits. */
  lemma {:induction false} OrLow(q: nat, r: nat, s: nat, k: nat)
    requires r < Pow2(k) && s < Pow2(k)
    ensures Or(Shl(q, k) + r, s) == Shl(q, k) + Or(r, s)
    ensures Or(r, s) < Pow2(k)
  {
    if k == 0 {
      OrZero(q);
    } else {
      OrLow(q, r / 2, s / 2, k - 1);
      OrStep(Shl(q, k - 1), r, s);
      OrStep(0, r, s);
    }
  }

  /** On an address aligned to 4096, or-ing in flag bits is addition. */
  lemma OrPage(q: nat, r: nat, s: nat)
    requires r < 4096 && s < 4096
    ensures Or(q * 4096 + r, s) == q * 4096 + Or(r, s)
    ensures Or(r, s) < 4096
  {
    Pow2Values();
    OrLow(q, r, s, 12);
    ShlFour(q, 0);
    ShlFour(q, 4);
    ShlFour(q, 8);
  }

  lemma ShlFour(q: nat, k: nat)
    ensures Shl(q, k + 4) == 16 * Shl(q, k)
  {
    assert Shl(q, k + 2) == 2 * Shl(q, k + 1);
  }

  lemma OrStep(h: nat, r: nat, s: nat)
    ensures Or(2 * h + r, s) == (if r % 2 == 1 || s % 2 == 1 then 1 else 0) + 2 * Or(h + r / 2, s / 2)
  {
    assert (2 * h + r) / 2 == h + r / 2;
  }

  /** Or-ing with a single bit sets it and changes nothing else. */
  lemma {:induction false} OrBit(x: nat, k: nat)
    ensures Or(x, Pow2(k)) == if Bit(x, k) then x else x + Pow2(k)
  {
    if k == 0 {
      OrStep(0, x, 1);
      OrZero(x / 2);
    } else {
      OrBit(x / 2, k - 1);
      OrStep(0, x, 2 * Pow2(k - 1));
    }
  }

  lemma {:induction false} OrBitSets(x: nat, k: nat)
    ensures Bit(Or(x, Pow2(k)), k)
  {
    OrStep(0, x, Pow2(k));
    if k > 0 {
      OrBitSets(x / 2, k - 1);
    }
  }

  /** `n` one bits followed by `k` zero bits. */
  function Mask(n: nat, k: nat): nat {
    if k == 0 then Pow2(n) - 1 else 2 * Mask(n, k - 1)
  }

  lemma {:induction false} AndAllOnes(e: nat, n: nat)
    requires e < Pow2(n)
    ensures And(e, Pow2(n) - 1) == e
  {
    if n > 0 {
      AndAllOnes(e / 2, n - 1);
      AndStep(e, Pow2(n - 1) - 1);
    }
  }

  lemma AndStep(e: nat, h: nat)
    ensures And(e, 2 * h) == 2 * And(e / 2, h)
    ensures And(e, 2 * h + 1) == e % 2 + 2 * And(e / 2, h)
  {
    assert (2 * h + 1) / 2 == h;
  }

  lemma {:induction false} AndMask(e: nat, n: nat, k: nat)
    requires e < Pow2(n + k)
    ensures And(e, Mask(n, k)) == e - e % Pow2(k)
  {
    if k == 0 {
      AndAllOnes(e, n);
    } else {
      AndMask(e / 2, n, k - 1);
      AndStep(e, Mask(n, k - 1));
      ModSplit(e, Pow2(k - 1));
    }
  }

  lemma ModSplit(e: nat, p: nat)
    requires p >= 1
    ensures e % (2 * p) == e % 2 + 2 * (e / 2 % p)
  {
    var h := e / 2;
    var q := h / p;
    assert h == q * p + h % p;
    assert e == q * (2 * p) + (e % 2 + 2 * (h % p));
    ModUnique(e, 2 * p, q, e % 2 + 2 * (h % p));
  }

  lemma MulGap(a: nat, b: nat, p: nat)
    requires a > b
    ensures a * p >= b * p + p
  {
    assert a * p == b * p + p + (a - b - 1) * p;
    assert (a - b - 1) * p >= 0;
  }

  lemma ModUnique(e: nat, p: nat, q: nat, r: nat)
    requires r < p && e == q * p + r
    ensures e % p == r && e / p == q
  {
    var d, m := e / p, e % p;
    assert d * p + m == q * p + r;
    if d > q {
      MulGap(d, q, p);
    } else if d < q {
      MulGap(q, d, p);
    }
  }

  /** `e & 0xfffff000` drops the twelve flag bits of a page-table entry. */
  lemma PageMask(e: u32)
    ensures And(e, 0xffff_f000) == e - e % 4096 == e / 4096 * 4096
  {
    Pow2Values();
    AndMask(e, 20, 12);
    assert Mask(20, 4) == 16 * Mask(20, 0);
    assert Mask(20, 8) == 16 * Mask(20, 4);
    assert Mask(20, 12) == 16 * Mask(20, 8);
  }

  lemma Pow2Values()
    ensures Pow2(1) == 2 && Pow2(8) == 0x100 && Pow2(9) == 0x200 && Pow2(12) == 4096 && Pow2(20) == 0x10_0000
    ensures Pow2(32) == WRAP
  {
    assert Pow2(4) == 16;
    assert Pow2(8) == 16 * Pow2(4);
    assert Pow2(12) == 16 * Pow2(8);
    assert Pow2(16) == 16 * Pow2(12);
    assert Pow2(20) == 16 * Pow2(16);
    assert Pow2(24) == 16 * Pow2(20);
    assert Pow2(28) == 16 * Pow2(24);
    assert Pow2(32) == 16 * Pow2(28);
  }
}
