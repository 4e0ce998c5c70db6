/** Unsigned machine integers and the bitwise operators the kernel applies to them.
    The operators are defined bit by bit on natural numbers; the lemmas relate each idiom of
    the source (masking, packing, testing one bit) to ordinary arithmetic. */
module Bits {
  const U8: nat := 0x100
  const U16: nat := 0x1_0000
  const U32: nat := 0x1_0000_0000

  type byte = x: int | 0 <= x < 0x100
  type u16 = x: int | 0 <= x < 0x1_0000
  type u32 = x: int | 0 <= x < 0x1_0000_0000

  function Pow2(k: nat): (p: nat)
    ensures p >= 1
  {
    if k == 0 then 1 else 2 * Pow2(k - 1)
  }

  /** Bit k of x. */
  predicate Bit(x: nat, k: nat) {
    if k == 0 then x % 2 == 1 else Bit(x / 2, k - 1)
  }

  function And(x: nat, y: nat): (r: nat)
    ensures r <= x && r <= y
  {
    if x == 0 || y == 0 then 0
    else 2 * And(x / 2, y / 2) + (if x % 2 == 1 && y % 2 == 1 then 1 else 0)
  }

  function Or(x: nat, y: nat): (r: nat)
    ensures x <= r <= x + y && y <= r
  {
    if x == 0 then y
    else if y == 0 then x
    else 2 * Or(x / 2, y / 2) + (if x % 2 == 1 || y % 2 == 1 then 1 else 0)
  }

  /** 32-bit addition and subtraction, with wrap-around. */
  function Add32(x: u32, y: u32): u32 {
    if x + y < U32 then x + y else x + y - U32
  }

  function Sub32(x: u32, y: u32): u32 {
    if x >= y then x - y else x - y + U32
  }

  /** The 32-bit complement. */
  function Not32(x: u32): u32 {
    U32 - 1 - x
  }

  function Shl32(x: u32, k: nat): u32
    decreases k
  {
    if k == 0 then x else Shl32(Add32(x, x), k - 1)
  }

  function Shr(x: nat, k: nat): (r: nat)
    ensures r <= x
  {
    if k == 0 then x else Shr(x / 2, k - 1)
  }

  lemma {:induction false} ZeroHasNoBits(k: nat)
    ensures !Bit(0, k)
  {
    if k > 0 {
      ZeroHasNoBits(k - 1);
    }
  }

  lemma {:induction false} BitOfAnd(x: nat, y: nat, k: nat)
    ensures Bit(And(x, y), k) == (Bit(x, k) && Bit(y, k))
  {
    if x == 0 || y == 0 {
      ZeroHasNoBits(k);
    } else if k > 0 {
      BitOfAnd(x / 2, y / 2, k - 1);
    }
  }

  lemma {:induction false} BitOfOr(x: nat, y: nat, k: nat)
    ensures Bit(Or(x, y), k) == (Bit(x, k) || Bit(y, k))
  {
    if x == 0 || y == 0 {
      ZeroHasNoBits(k);
    } else if k > 0 {
      BitOfOr(x / 2, y / 2, k - 1);
    }
  }

  lemma {:induction false} BitOfPow2(k: nat, j: nat)
    ensures Bit(Pow2(k), j) == (j == k)
  {
    if k == 0 {
      ZeroHasNoBits(if j == 0 then 0 else j - 1);
    } else if j > 0 {
      BitOfPow2(k - 1, j - 1);
    }
  }

  lemma {:induction false} BitOfComplement(n: nat, x: nat, j: nat)
    requires x < Pow2(n) && j < n
    ensures Bit(Pow2(n) - 1 - x, j) == !Bit(x, j)
  {
    if j > 0 {
      assert (Pow2(n) - 1 - x) / 2 == Pow2(n - 1) - 1 - x / 2;
      BitOfComplement(n - 1, x / 2, j - 1);
    }
  }

  lemma {:induction false} ShrIsDiv(x: nat, k: nat)
    ensures Shr(x, k) == x / Pow2(k)
  {
    if k > 0 {
      ShrIsDiv(x / 2, k - 1);
      HalveMod(x, Pow2(k - 1));
    }
  }

  lemma {:induction false} ShiftFactor(x: nat, p: nat)
    requires p >= 1
    ensures x * (2 * p) == (2 * x) * p && (2 * x) * p >= 2 * x
  {}

  /** A left shift that loses no bit is a multiplication. */
  lemma {:induction false} ShlIsMul(x: u32, k: nat)
    requires x * Pow2(k) < U32
    ensures Shl32(x, k) == x * Pow2(k)
    decreases k
  {
    if k > 0 {
      ShiftFactor(x, Pow2(k - 1));
      ShlIsMul(2 * x, k - 1);
    }
  }

  lemma {:induction false} MulMod(q: nat, m: nat)
    requires m > 0
    ensures (q * m) % m == 0 && (q * m) / m == q
  {
    DivModUnique(q * m, m, q, 0);
  }

  lemma {:induction false} AndDef(x: nat, y: nat)
    ensures And(x, y) == 2 * And(x / 2, y / 2) + (if x % 2 == 1 && y % 2 == 1 then 1 else 0)
  {}

  lemma {:induction false} AndZero(x: nat)
    ensures And(x, 0) == 0
  {}

  lemma {:induction false} AndStep(x: nat, h: nat)
    ensures And(x, 2 * h) == 2 * And(x / 2, h)
    ensures And(x, 2 * h + 1) == 2 * And(x / 2, h) + x % 2
  {
    hide And;
    AndDef(x, 2 * h);
    AndDef(x, 2 * h + 1);
  }

  /** The low k bits of x, assembled bit by bit. */
  function Low(x: nat, k: nat): (r: nat)
    ensures r < Pow2(k) && r <= x
  {
    if k == 0 then 0 else 2 * Low(x / 2, k - 1) + x % 2
  }

  lemma {:induction false} LowIsMod(x: nat, k: nat)
    ensures Low(x, k) == x % Pow2(k)
  {
    if k > 0 {
      LowIsMod(x / 2, k - 1);
      HalveMod(x, Pow2(k - 1));
    }
  }

  lemma {:induction false} AndMaskIsLow(x: nat, k: nat)
    ensures And(x, Pow2(k) - 1) == Low(x, k)
  {
    hide And;
    if k == 0 {
      AndZero(x);
    } else {
      AndMaskIsLow(x / 2, k - 1);
      AndStep(x, Pow2(k - 1) - 1);
    }
  }

  lemma {:induction false} AndIsLowBits(x: nat, k: nat)
    ensures And(x, Pow2(k) - 1) == x % Pow2(k)
  {
    AndMaskIsLow(x, k);
    LowIsMod(x, k);
  }

  lemma {:induction false} HalveMod(x: nat, m: nat)
    requires m > 0
    ensures x % (2 * m) == 2 * ((x / 2) % m) + x % 2
    ensures x / (2 * m) == (x / 2) / m
  {
    var q, r := (x / 2) / m, (x / 2) % m;
    assert x / 2 == m * q + r;
    assert (2 * m) * q == 2 * (m * q);
    DivModUnique(x, 2 * m, q, 2 * r + x % 2);
  }

  lemma {:induction false} BitIsDiv(x: nat, k: nat)
    ensures Bit(x, k) == ((x / Pow2(k)) % 2 == 1)
  {
    if k > 0 {
      BitIsDiv(x / 2, k - 1);
      HalveMod(x, Pow2(k - 1));
    }
  }

  lemma {:induction false} DivModUnique(x: int, m: int, q: int, r: int)
    requires m > 0 && x == m * q + r && 0 <= r < m
    ensures x / m == q && x % m == r
  {
    var d := x / m - q;
    assert m * d == r - x % m;
    assert d > 0 ==> m * d >= m;
    assert d < 0 ==> m * d <= -m;
  }

  lemma {:induction false} AndMaskIsHigh(x: nat, n: nat, k: nat)
    requires k <= n && x < Pow2(n)
    ensures Pow2(n) >= Pow2(k)
    ensures And(x, Pow2(n) - Pow2(k)) == x - Low(x, k)
  {
    hide And;
    if k == 0 {
      AndMaskIsLow(x, n);
      LowOfSmall(x, n);
    } else {
      Pow2Grows(k - 1, n - 1);
      AndMaskIsHigh(x / 2, n - 1, k - 1);
      AndStep(x, Pow2(n - 1) - Pow2(k - 1));
    }
  }

  lemma {:induction false} LowOfSmall(x: nat, k: nat)
    requires x < Pow2(k)
    ensures Low(x, k) == x
  {
    if k > 0 {
      LowOfSmall(x / 2, k - 1);
    }
  }

  lemma {:induction false} AndIsHighBits(x: nat, n: nat, k: nat)
    requires k <= n && x < Pow2(n)
    ensures Pow2(n) >= Pow2(k)
    ensures And(x, Pow2(n) - Pow2(k)) == x - x % Pow2(k)
  {
    AndMaskIsHigh(x, n, k);
    LowIsMod(x, k);
  }

  /** Packing: a field shorter than k bits or'ed under k zero bits is an addition. */
  lemma {:induction false} OrIsPack(x: nat, y: nat, k: nat)
    requires x % Pow2(k) == 0 && y < Pow2(k)
    ensures Or(x, y) == x + y
  {
    if k > 0 && x > 0 && y > 0 {
      HalveMod(x, Pow2(k - 1));
      OrIsPack(x / 2, y / 2, k - 1);
    }
  }

  lemma {:induction false} OrCommutes(x: nat, y: nat)
    ensures Or(x, y) == Or(y, x)
  {
    if x > 0 && y > 0 {
      OrCommutes(x / 2, y / 2);
    }
  }

  lemma {:induction false} OrBelow(x: nat, y: nat, n: nat)
    requires x < Pow2(n) && y < Pow2(n)
    ensures Or(x, y) < Pow2(n)
  {
    if n > 0 && x > 0 && y > 0 {
      OrBelow(x / 2, y / 2, n - 1);
    }
  }

  lemma {:induction false} AndSingleBit(x: nat, k: nat)
    ensures And(x, Pow2(k)) == if Bit(x, k) then Pow2(k) else 0
  {
    if x == 0 {
      ZeroHasNoBits(k);
    } else if k > 0 {
      AndSingleBit(x / 2, k - 1);
    } else {
      assert And(x / 2, 0) == 0;
    }
  }

  lemma {:induction false} Pow2Grows(i: nat, j: nat)
    requires i <= j
    ensures Pow2(i) <= Pow2(j)
  {
    if i < j {
      Pow2Grows(i, j - 1);
    }
  }

  lemma {:induction false} Pow2Sum(i: nat, j: nat)
    ensures Pow2(i + j) == Pow2(i) * Pow2(j)
  {
    if i > 0 {
      Pow2Sum(i - 1, j);
      assert Pow2(i + j) == 2 * Pow2(i - 1 + j);
    }
  }

  lemma {:induction false} Pow2Values()
    ensures Pow2(1) == 2 && Pow2(2) == 4 && Pow2(3) == 8 && Pow2(4) == 16
    ensures Pow2(8) == 0x100 && Pow2(10) == 0x400 && Pow2(12) == 0x1000 && Pow2(13) == 0x2000 && Pow2(14) == 0x4000
    ensures Pow2(16) == U16 && Pow2(20) == 0x10_0000 && Pow2(21) == 0x20_0000 && Pow2(22) == 0x40_0000
    ensures Pow2(24) == 0x100_0000 && Pow2(29) == 0x2000_0000 && Pow2(32) == U32
  {
    Pow2Sum(8, 8);
    Pow2Sum(16, 16);
    Pow2Sum(16, 8);
    Pow2Sum(16, 13);
    Pow2Sum(16, 4);
    Pow2Sum(16, 5);
    Pow2Sum(16, 6);
  }

  /** A number is determined by its bits. */
  lemma {:induction false} SameBits(x: nat, y: nat)
    requires forall k: nat :: Bit(x, k) == Bit(y, k)
    ensures x == y
    decreases x + y
  {
    if x > 0 || y > 0 {
      assert Bit(x, 0) == Bit(y, 0);
      forall k: nat
        ensures Bit(x / 2, k) == Bit(y / 2, k)
      {
        assert Bit(x, k + 1) == Bit(y, k + 1);
      }
      SameBits(x / 2, y / 2);
    }
  }
}
