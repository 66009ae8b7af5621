/** 32-bit words as integers, with C's bitwise operators defined bit by bit. */
module Bits {
  const WORD_SIZE: int := 0x1_0000_0000
  type word = x: int | 0 <= x < 0x1_0000_0000

  /** PAGING_PAGE_SIZE and MAEROS_HEAP_BLOCK_SIZE. */
  const PAGE_SIZE: nat := 4096
  /** The mask 0xfffff000 that strips the flag bits from a table entry. */
  const ADDRESS_MASK: nat := 0xffff_f000

  function And(x: nat, y: nat): nat {
    if x == 0 || y == 0 then 0 else (x % 2) * (y % 2) + 2 * And(x / 2, y / 2)
  }

  function Or(x: nat, y: nat): nat {
    if x == 0 then y else if y == 0 then x
    else (if x % 2 == 1 || y % 2 == 1 then 1 else 0) + 2 * Or(x / 2, y / 2)
  }

  function Pow2(k: nat): (p: nat)
    ensures p > 0
  {
    if k == 0 then 1 else 2 * Pow2(k - 1)
  }

  /** Unsigned 32-bit wrap-around. */
  function Wrap(x: int): word {
    x % 0x1_0000_0000
  }

  /** C division of an int by a positive constant: truncates toward zero. */
  function TruncDiv(a: int, d: int): int
    requires d > 0
  {
    if a >= 0 then a / d else -((-a) / d)
  }

  predicate Aligned(a: int) {
    a % PAGE_SIZE == 0
  }

  /** Masking with k ones keeps the value modulo 2^k. */
  lemma {:induction false} AndOnes(x: nat, k: nat)
    ensures And(x, Pow2(k) - 1) == x % Pow2(k)
  {
    if k == 0 {
    } else if x == 0 {
    } else {
      AndOnes(x / 2, k - 1);
      var p := Pow2(k - 1);
      assert (2 * p - 1) / 2 == p - 1 && (2 * p - 1) % 2 == 1;
      ModDouble(x, p);
    }
  }

  lemma ModDouble(x: nat, p: nat)
    requires p > 0
    ensures x % (2 * p) == x % 2 + 2 * ((x / 2) % p)
  {
    var q, r := (x / 2) / p, (x / 2) % p;
    assert x == x % 2 + 2 * (q * p + r);
    assert x == (2 * p) * q + (x % 2 + 2 * r) by { assert 2 * (q * p) == (2 * p) * q; }
    DivModUnique(x, 2 * p, q, x % 2 + 2 * r);
  }

  lemma DivModUnique(x: int, d: int, q: int, r: int)
    requires d > 0 && 0 <= r < d && x == d * q + r
    ensures x / d == q && x % d == r
  {
    var q', r' := x / d, x % d;
    assert x == d * q' + r';
    assert d * (q - q') == r' - r by { assert d * (q - q') == d * q - d * q'; }
    Multiple(d, q - q');
  }

  lemma Multiple(d: int, n: int)
    requires d > 0
    ensures n >= 1 ==> d * n >= d
    ensures n <= -1 ==> d * n <= -d
  {
  }

  lemma AndTwice(x: nat, m: nat)
    ensures And(x, 2 * m) == 2 * And(x / 2, m)
  {
  }

  function ShiftLeft(x: nat, k: nat): nat {
    if k == 0 then x else 2 * ShiftLeft(x, k - 1)
  }

  function ShiftRight(x: nat, k: nat): nat {
    if k == 0 then x else ShiftRight(x / 2, k - 1)
  }

  /** A mask with k low zeros drops the k low bits. */
  lemma {:induction false} AndShift(x: nat, m: nat, k: nat)
    ensures And(x, ShiftLeft(m, k)) == ShiftLeft(And(ShiftRight(x, k), m), k)
  {
    if k == 0 {
    } else {
      AndShift(x / 2, m, k - 1);
      AndTwice(x, ShiftLeft(m, k - 1));
    }
  }

  lemma Shift4(x: nat, k: nat)
    ensures ShiftLeft(x, k + 4) == 16 * ShiftLeft(x, k)
    ensures ShiftRight(x, k + 4) == ShiftRight(x / 16, k)
  {
    assert ShiftLeft(x, k + 2) == 4 * ShiftLeft(x, k);
    assert ShiftRight(x / 4, k + 2) == ShiftRight(x / 16, k);
  }

  lemma Shift12(x: nat)
    ensures ShiftLeft(x, 12) == 4096 * x
    ensures ShiftRight(x, 12) == x / 4096
  {
    assert ShiftLeft(x, 12) == 4096 * x by {
      Shift4(x, 0); Shift4(x, 4); Shift4(x, 8);
    }
    calc {
      ShiftRight(x, 12);
      { Shift4(x, 8); }
      ShiftRight(x / 16, 8);
      { Shift4(x / 16, 4); assert x / 16 / 16 == x / 256; }
      ShiftRight(x / 256, 4);
      { Shift4(x / 256, 0); assert x / 256 / 16 == x / 4096; }
      x / 4096;
    }
  }

  lemma Pow2Values()
    ensures Pow2(12) == 4096 && Pow2(20) == 0x10_0000
  {
    assert Pow2(6) == 64;
    assert Pow2(12) == 4096;
    assert Pow2(18) == 0x4_0000;
  }

  /** Masking a word with 0xfffff000 rounds it down to its page. */
  lemma MaskWord(x: word)
    ensures And(x, ADDRESS_MASK) == x - x % PAGE_SIZE
  {
    Pow2Values();
    AndShift(x, Pow2(20) - 1, 12);
    Shift12(Pow2(20) - 1);
    Shift12(x);
    Shift12(x / PAGE_SIZE);
    AndOnes(x / PAGE_SIZE, 20);
    assert (x / PAGE_SIZE) % 0x10_0000 == x / PAGE_SIZE;
  }

  /** Or leaves the bits above 2^k alone when the other operand has none there. */
  lemma {:induction false} OrLow(a: nat, f: nat, g: nat, k: nat)
    requires a % Pow2(k) == 0 && f < Pow2(k) && g < Pow2(k)
    ensures Or(a + f, g) == a + Or(f, g)
  {
    if k == 0 || a + f == 0 || g == 0 {
    } else {
      var p := Pow2(k - 1);
      ModDouble(a, p);
      OrLow(a / 2, f / 2, g / 2, k - 1);
      assert (a + f) / 2 == a / 2 + f / 2 && (a + f) % 2 == f % 2;
    }
  }

  lemma OrFlags(a: word, f: nat)
    requires Aligned(a) && f < PAGE_SIZE
    ensures Or(a, f) == a + f < WORD_SIZE
  {
    Pow2Values();
    OrLow(a, 0, f, 12);
  }

  lemma MaskSum(a: word, h: nat)
    requires Aligned(a) && h < PAGE_SIZE
    ensures a + h < WORD_SIZE && And(a + h, ADDRESS_MASK) == a
  {
    hide And;
    MaskWord(a + h);
  }

  lemma OrTwoFlags(a: word, f: nat, g: nat)
    requires Aligned(a) && f < PAGE_SIZE && g < PAGE_SIZE
    ensures Or(Or(a, f), g) == a + Or(f, g) && Or(f, g) < PAGE_SIZE
  {
    Pow2Values();
    OrFlags(a, f);
    OrBound(f, g, 12);
    OrLow(a, f, g, 12);
  }

  /** A page address ORed with two groups of flags, as in a directory entry, comes back from the mask unchanged. */
  lemma TwoFlagsRoundTrip(a: word, f: nat, g: nat)
    requires Aligned(a) && f < PAGE_SIZE && g < PAGE_SIZE
    ensures Or(Or(a, f), g) < WORD_SIZE
    ensures And(Or(Or(a, f), g), ADDRESS_MASK) == a
  {
    OrTwoFlags(a, f, g);
    MaskSum(a, Or(f, g));
  }

  /** Bitwise or keeps words inside any power of two. */
  lemma {:induction false} OrBound(x: nat, y: nat, k: nat)
    requires x < Pow2(k) && y < Pow2(k)
    ensures Or(x, y) < Pow2(k)
  {
    if k == 0 || x == 0 || y == 0 {
    } else {
      OrBound(x / 2, y / 2, k - 1);
    }
  }

  lemma OrWord(x: word, y: word)
    ensures Or(x, y) < WORD_SIZE
  {
    Pow2Values();
    assert Pow2(26) == 0x400_0000;
    assert Pow2(32) == WORD_SIZE;
    OrBound(x, y, 32);
  }

  lemma CyclicStep(x: nat, n: nat)
    requires n > 0
    ensures (x % n + 1) % n == (x + 1) % n
  {
    var q, r := x / n, x % n;
    var p := n * q;
    assert x == p + r;
    SmallMod(r + 1, n);
    if r + 1 == n {
      assert n * (q + 1) == p + n;
      DivModUnique(x + 1, n, q + 1, 0);
    } else {
      DivModUnique(x + 1, n, q, r + 1);
    }
  }

  lemma SmallMod(x: nat, n: nat)
    requires x < 2 * n
    ensures x % n == if x < n then x else x - n
  {
    if x < n {
      DivModUnique(x, n, 0, x);
    } else {
      DivModUnique(x, n, 1, x - n);
    }
  }

  /** Masking with 2 tests the second bit. */
  lemma SecondBit(x: nat)
    ensures And(x, 2) != 0 <==> (x / 2) % 2 == 1
  {
    AndTwice(x, 1);
    assert And(x / 2, 1) == (x / 2) % 2;
  }

  /** ORing one bit into a number sets that bit and keeps the others. */
  lemma {:induction false} OrBit(x: nat, k: nat)
    ensures Or(x, Pow2(k)) == if (x / Pow2(k)) % 2 == 1 then x else x + Pow2(k)
  {
    if k == 0 {
      OrOne(x);
    } else if x > 0 {
      var p := Pow2(k - 1);
      OrBit(x / 2, k - 1);
      HalfTwice(x, p);
      OrEven(x, p);
      hide Or;
    }
  }

  lemma {:induction false} OrOne(x: nat)
    ensures Or(x, 1) == if x % 2 == 1 then x else x + 1
  {
  }

  lemma {:induction false} OrEven(x: nat, p: nat)
    requires x > 0 && p > 0
    ensures Or(x, 2 * p) == x % 2 + 2 * Or(x / 2, p)
  {
  }

  lemma HalfTwice(x: nat, p: nat)
    requires p > 0
    ensures x / (2 * p) == x / 2 / p
  {
    var q, r := x / 2 / p, (x / 2) % p;
    assert x / 2 == p * q + r;
    assert x == (2 * p) * q + (2 * r + x % 2);
    DivModUnique(x, 2 * p, q, 2 * r + x % 2);
  }
}
