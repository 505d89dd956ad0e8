/**
 Bitwise operators on unsigned machine words, modelled on `nat` by recursion on the binary digits, and the
 arithmetic meaning of the masks the C code uses.
 */
module Bits {

  function Pow2(k: nat): (p: nat)
    ensures p >= 1
  {
    if k == 0 then 1 else 2 * Pow2(k - 1)
  }

  type Byte = x: nat | x <= 0xff

  // The number of values of a 32-bit word.
  const WORD: nat := 0x1_0000_0000

  // Storing a number in a 32-bit word.
  function U32(x: int): (r: nat)
    ensures r <= 0xffff_ffff
    ensures 0 <= x <= 0xffff_ffff ==> r == x
  {
    x % 0x1_0000_0000
  }

  // C's `x & y`.
  function And(x: nat, y: nat): (r: nat)
    decreases x
  {
    if x == 0 || y == 0 then 0
    else (if x % 2 == 1 && y % 2 == 1 then 1 else 0) + 2 * And(x / 2, y / 2)
  }

  // C's `x | y`.
  function Or(x: nat, y: nat): nat
    decreases x + y
  {
    if x == 0 && y == 0 then 0
    else (if x % 2 == 1 || y % 2 == 1 then 1 else 0) + 2 * Or(x / 2, y / 2)
  }

  // C's `x ^ y`.
  function Xor(x: nat, y: nat): nat
    decreases x + y
  {
    if x == 0 && y == 0 then 0
    else (if x % 2 == y % 2 then 0 else 1) + 2 * Xor(x / 2, y / 2)
  }

  // C's `x >> k`.
  function Shr(x: nat, k: nat): nat
    decreases x, k
  {
    if k == 0 then x else Shr(x / 2, k - 1)
  }

  // C's `~x` on a word of `width` bits.
  function Not(width: nat, x: nat): nat
    requires x < Pow2(width)
  {
    Pow2(width) - 1 - x
  }

  // Bit i of x.
  predicate Bit(x: nat, i: nat) {
    if i == 0 then x % 2 == 1 else Bit(x / 2, i - 1)
  }

  // Shifting right by k is dividing by 2^k.
  lemma {:induction false} ShrIsDivision(x: nat, k: nat)
    ensures Shr(x, k) == x / Pow2(k)
    decreases k
  {
    if k == 0 {
    } else {
      ShrIsDivision(x / 2, k - 1);
      DivModDouble(x, Pow2(k - 1), Pow2(k));
    }
  }

  // Bit i is the digit with weight 2^i.
  lemma {:induction false} BitIsDigit(x: nat, i: nat)
    ensures Bit(x, i) <==> (x / Pow2(i)) % 2 == 1
    decreases i
  {
    if i == 0 {
    } else {
      BitIsDigit(x / 2, i - 1);
      DivModDouble(x, Pow2(i - 1), Pow2(i));
    }
  }

  lemma DivModUnique(n: int, d: int, q: int, r: int)
    requires d > 0 && 0 <= r < d && n == q * d + r
    ensures n / d == q && n % d == r
  {
    assert (n / d) * d + n % d == n;
    var e := n / d - q;
    assert e * d == r - n % d;
    MultipleBound(e, d);
  }

  lemma MultipleBound(e: int, d: int)
    requires d > 0
    ensures e >= 1 ==> e * d >= d
    ensures e <= -1 ==> e * d <= -d
  {
  }

  // Sums and differences of words, stored in a word, are those of the numbers they stand for.
  lemma ModSub(a: int, b: int, c: int)
    ensures U32(c + U32(a) - U32(b)) == U32(c + a - b)
  {
  }

  lemma ModAdd(a: int, b: int)
    ensures U32(U32(a) + b) == U32(a + b)
  {
  }

  // Reducing modulo a multiple of m first does not change the residue modulo m.
  lemma ModMod(x: nat, laps: nat, m: nat)
    requires laps > 0 && m > 0
    ensures laps * m > 0 && (x % (laps * m)) % m == x % m
  {
    var w := laps * m;
    MultipleBound(laps, m);
    var k, y := x / w, x % w;
    var q := y / m;
    assert x == k * w + y && y == q * m + y % m;
    assert k * w == (k * laps) * m;
    assert (k * laps + q) * m == (k * laps) * m + q * m;
    DivModUnique(x, m, k * laps + q, y % m);
  }

  // Dividing by 2p is halving and then dividing by p.
  lemma DivModDouble(x: nat, p: nat, q: nat)
    requires p > 0 && q == 2 * p
    ensures x % q == x % 2 + 2 * ((x / 2) % p)
    ensures x / q == (x / 2) / p
  {
    var h := x / 2;
    assert h == (h / p) * p + h % p;
    assert x == (h / p) * q + (2 * (h % p) + x % 2) by {
      assert (h / p) * q == 2 * ((h / p) * p);
    }
    DivModUnique(x, q, h / p, 2 * (h % p) + x % 2);
  }

  // Less than one lap apart, two numbers have different residues.
  lemma DifferentResidues(x: nat, y: nat, m: nat)
    requires x < y < x + m
    ensures x % m != y % m
  {
    if x % m == y % m {
      assert y - x == (y / m - x / m) * m;
      MultipleBound(y / m - x / m, m);
    }
  }

  lemma Remainder(x: nat, m: nat)
    requires m > 0
    ensures x % m < m && (x < m ==> x % m == x) && m % m == 0
  {
    DivModUnique(m, m, 1, 0);
    if x < m {
      DivModUnique(x, m, 0, x);
    }
  }

  lemma {:induction false} Pow2Add(a: nat, b: nat)
    ensures Pow2(a + b) == Pow2(a) * Pow2(b)
  {
    if a == 0 {
    } else {
      Pow2Add(a - 1, b);
      assert Pow2(a + b) == 2 * Pow2(a - 1 + b);
    }
  }

  lemma {:induction false} Pow2Monotone(a: nat, b: nat)
    requires a <= b
    ensures Pow2(a) <= Pow2(b)
    ensures a < b ==> Pow2(a) < Pow2(b)
  {
    if a == b {
    } else {
      Pow2Monotone(a, b - 1);
    }
  }

  lemma Pow2_8()
    ensures Pow2(8) == 256
  {
    assert Pow2(4) == 16;
  }

  lemma Pow2_16()
    ensures Pow2(16) == 0x1_0000
  {
    Pow2_8();
    Pow2Add(8, 8);
  }

  lemma Pow2_32()
    ensures Pow2(32) == WORD
  {
    Pow2_16();
    Pow2Add(16, 16);
  }

  // The low k bits of x.
  function LowBits(x: nat, k: nat): (r: nat)
    ensures r <= x
    decreases x, k
  {
    if k == 0 then 0 else x % 2 + 2 * LowBits(x / 2, k - 1)
  }

  lemma {:induction false} LowBitsMod(x: nat, k: nat)
    ensures LowBits(x, k) == x % Pow2(k)
  {
    if k == 0 {
    } else {
      LowBitsMod(x / 2, k - 1);
      DivModDouble(x, Pow2(k - 1), Pow2(k));
    }
  }

  // `x & (2^k - 1)` keeps the low k bits: it is the remainder modulo 2^k.
  lemma AndLowMask(x: nat, k: nat)
    ensures And(x, Pow2(k) - 1) == x % Pow2(k)
  {
    AndKeepsLow(x, k);
    LowBitsMod(x, k);
  }

  lemma {:induction false} AndKeepsLow(x: nat, k: nat)
    ensures And(x, Pow2(k) - 1) == LowBits(x, k)
    decreases k
  {
    if k == 0 {
    } else {
      AndKeepsLow(x / 2, k - 1);
      AndOdd(x, Pow2(k - 1) - 1, Pow2(k) - 1);
    }
  }

  lemma AndOdd(x: nat, y: nat, z: nat)
    requires z == 2 * y + 1
    ensures And(x, z) == x % 2 + 2 * And(x / 2, y)
  {
    assert z / 2 == y;
  }

  lemma OrOdd(x: nat, y: nat, z: nat)
    requires z == 2 * y + 1
    ensures Or(x, z) == 1 + 2 * Or(x / 2, y)
  {
    assert z / 2 == y;
  }

  // `x | (2^k - 1)` raises x to the last address of its 2^k-aligned block.
  lemma OrLowMask(x: nat, k: nat)
    ensures Or(x, Pow2(k) - 1) == x - x % Pow2(k) + Pow2(k) - 1
  {
    OrFillsLow(x, k);
    LowBitsMod(x, k);
  }

  lemma {:induction false} OrFillsLow(x: nat, k: nat)
    ensures Or(x, Pow2(k) - 1) == x - LowBits(x, k) + Pow2(k) - 1
    decreases k
  {
    if k == 0 {
      OrZero(x);
    } else {
      OrFillsLow(x / 2, k - 1);
      OrOdd(x, Pow2(k - 1) - 1, Pow2(k) - 1);
    }
  }

  lemma {:induction false} OrZero(x: nat)
    ensures Or(x, 0) == x
  {
    if x == 0 {
    } else {
      OrZero(x / 2);
    }
  }

  // `x & ~(2^k - 1)` on n-bit words lowers x to the first address of its 2^k-aligned block.
  lemma AndHighMask(x: nat, k: nat, n: nat)
    requires k <= n && x < Pow2(n)
    ensures Pow2(k) <= Pow2(n)
    ensures And(x, Pow2(n) - Pow2(k)) == x - x % Pow2(k)
  {
    Pow2Monotone(k, n);
    AndDropsLow(x, k, n, Pow2(n) - Pow2(k));
    LowBitsMod(x, k);
  }

  lemma {:induction false} AndDropsLow(x: nat, k: nat, n: nat, mask: nat)
    requires k <= n && x < Pow2(n) && mask == Pow2(n) - Pow2(k)
    ensures And(x, mask) == x - LowBits(x, k)
    decreases k
  {
    if k == 0 {
      AndKeepsLow(x, n);
      AllBits(x, n);
    } else {
      var half: int := Pow2(n - 1) - Pow2(k - 1);
      assert mask == 2 * half;
      AndDropsLow(x / 2, k - 1, n - 1, half);
      AndEven(x, half, mask);
    }
  }

  lemma {:induction false} AllBits(x: nat, n: nat)
    requires x < Pow2(n)
    ensures LowBits(x, n) == x
    decreases n
  {
    if n == 0 {
    } else {
      AllBits(x / 2, n - 1);
    }
  }

  // The high bits of a word are not all zero when it reaches the power of their lowest one.
  lemma HighPart(x: nat, k: nat, n: nat)
    requires k <= n && x < Pow2(n)
    ensures Pow2(k) <= Pow2(n)
    ensures And(x, Pow2(n) - Pow2(k)) != 0 <==> x >= Pow2(k)
  {
    AndHighMask(x, k, n);
    Remainder(x, Pow2(k));
  }

  lemma AndEven(x: nat, y: nat, z: nat)
    requires z == 2 * y
    ensures And(x, z) == 2 * And(x / 2, y)
  {
    assert z / 2 == y;
  }

  lemma {:induction false} AndAtMost(x: nat, y: nat)
    ensures And(x, y) <= x
  {
    if x == 0 || y == 0 {
    } else {
      AndAtMost(x / 2, y / 2);
    }
  }

  function AndByte(x: Byte, y: Byte): Byte {
    AndAtMost(x, y);
    And(x, y)
  }

  // Bits act independently.
  lemma {:induction false} AndBit(x: nat, y: nat, i: nat)
    ensures Bit(And(x, y), i) <==> Bit(x, i) && Bit(y, i)
  {
    if x == 0 || y == 0 {
      ZeroBit(i);
    } else if i > 0 {
      AndBit(x / 2, y / 2, i - 1);
      assert And(x, y) / 2 == And(x / 2, y / 2);
    }
  }

  lemma {:induction false} OrBit(x: nat, y: nat, i: nat)
    ensures Bit(Or(x, y), i) <==> Bit(x, i) || Bit(y, i)
  {
    if x == 0 && y == 0 {
      ZeroBit(i);
    } else {
      OrStep(x, y);
      if i > 0 {
        OrBit(x / 2, y / 2, i - 1);
      }
    }
  }

  lemma OrStep(x: nat, y: nat)
    requires x != 0 || y != 0
    ensures Or(x, y) / 2 == Or(x / 2, y / 2) && (Or(x, y) % 2 == 1 <==> x % 2 == 1 || y % 2 == 1)
  {
  }

  lemma {:induction false} XorBit(x: nat, y: nat, i: nat)
    ensures Bit(Xor(x, y), i) <==> Bit(x, i) != Bit(y, i)
    decreases i
  {
    if x == 0 && y == 0 {
      ZeroBit(i);
    } else if i > 0 {
      XorBit(x / 2, y / 2, i - 1);
      assert Xor(x, y) / 2 == Xor(x / 2, y / 2);
    }
  }

  // The bits of b + 2^k * x are those of b, then those of x.
  lemma {:induction false} BitOfSums(b: nat, x: nat, k: nat, i: nat)
    requires b < Pow2(k)
    ensures i < k ==> (Bit(b + Pow2(k) * x, i) <==> Bit(b, i))
    ensures i >= k ==> (Bit(b + Pow2(k) * x, i) <==> Bit(x, i - k))
  {
    if k == 0 {
    } else {
      var y := b + Pow2(k) * x;
      assert Pow2(k) * x == 2 * (Pow2(k - 1) * x);
      assert y / 2 == b / 2 + Pow2(k - 1) * x && y % 2 == b % 2;
      if i > 0 {
        BitOfSums(b / 2, x, k - 1, i - 1);
      }
    }
  }

  lemma {:induction false} ZeroBit(i: nat)
    ensures !Bit(0, i)
  {
    if i == 0 {
    } else {
      ZeroBit(i - 1);
    }
  }

  // `x & (1 << i)` tests bit i.
  lemma {:induction false} AndPow2(x: nat, i: nat)
    ensures And(x, Pow2(i)) != 0 <==> Bit(x, i)
  {
    if x > 0 {
      if i > 0 {
        AndPow2(x / 2, i - 1);
        AndEven(x, Pow2(i - 1), Pow2(i));
      }
    } else {
      ZeroBit(i);
    }
  }

  lemma {:induction false} NotBit(n: nat, x: nat, i: nat)
    requires x < Pow2(n) && i < n
    ensures Bit(Not(n, x), i) <==> !Bit(x, i)
  {
    var y, z := Not(n, x), Not(n - 1, x / 2);
    assert y == 2 * z + (1 - x % 2);
    assert y / 2 == z && y % 2 == 1 - x % 2;
    if i == 0 {
    } else {
      NotBit(n - 1, x / 2, i - 1);
    }
  }

  lemma {:induction false} BitBelow(x: nat, i: nat, n: nat)
    requires x < Pow2(n) && Bit(x, i)
    ensures i < n
  {
    if n == 0 {
      ZeroBit(i);
    } else if i > 0 {
      BitBelow(x / 2, i - 1, n - 1);
    }
  }

  // Exclusive or undoes itself and stays within the width of its operands.
  lemma {:induction false} XorTwice(x: nat, y: nat)
    ensures Xor(Xor(x, y), y) == x
    decreases x + y
  {
    if x == 0 && y == 0 {
    } else {
      XorTwice(x / 2, y / 2);
      assert Xor(x, y) / 2 == Xor(x / 2, y / 2);
    }
  }

  lemma {:induction false} XorBelow(x: nat, y: nat, n: nat)
    requires x < Pow2(n) && y < Pow2(n)
    ensures Xor(x, y) < Pow2(n)
  {
    if n == 0 {
    } else {
      XorBelow(x / 2, y / 2, n - 1);
    }
  }
}
