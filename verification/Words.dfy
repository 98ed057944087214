/** Unsigned 32-bit words as the C code uses them: wrap-around is written out with `% WORD`,
    and the bitwise operators work digit by digit on the binary expansion. */
module Words {
  const WORD := 0x1_0000_0000

  type word = x: int | 0 <= x < 0x1_0000_0000
  type byte = x: int | 0 <= x < 256

  function Pow2(k: nat): (p: int)
    ensures p > 0
  {
    if k == 0 then 1 else 2 * Pow2(k - 1)
  }

  /** Binary digit k of x. */
  predicate Bit(x: nat, k: nat) {
    if k == 0 then x % 2 == 1 else Bit(x / 2, k - 1)
  }

  /** x & y */
  function And(x: nat, y: nat): nat {
    if x == 0 || y == 0 then 0
    else 2 * And(x / 2, y / 2) + (if x % 2 == 1 && y % 2 == 1 then 1 else 0)
  }

  /** x | y */
  function Or(x: nat, y: nat): nat
    decreases x + y
  {
    if x == 0 then y else if y == 0 then x
    else 2 * Or(x / 2, y / 2) + (if x % 2 == 1 || y % 2 == 1 then 1 else 0)
  }

  /** ~x on 32 bits */
  function Not(x: word): word {
    WORD - 1 - x
  }

  lemma Pow2Is(k: nat)
    ensures Pow2(3) == 8 && Pow2(12) == 4096 && Pow2(32) == WORD
    ensures k < 32 ==> 2 * Pow2(k) <= WORD
  {
    EightMore(0); EightMore(8); EightMore(16); EightMore(24);
    if k < 32 {
      Pow2Grows(k, 31);
    }
  }

  lemma EightMore(k: nat)
    ensures Pow2(k + 8) == 256 * Pow2(k)
  {
    assert Pow2(k + 4) == 16 * Pow2(k) by {
      assert Pow2(k + 2) == 4 * Pow2(k);
    }
    assert Pow2(k + 6) == 64 * Pow2(k);
  }

  lemma {:induction false} Pow2Grows(j: nat, k: nat)
    requires j <= k
    ensures Pow2(j) <= Pow2(k)
    decreases k
  {
    if j < k {
      Pow2Grows(j, k - 1);
    }
  }

  lemma {:induction false} ZeroHasNoBits(k: nat)
    ensures !Bit(0, k)
  {
    if k > 0 {
      ZeroHasNoBits(k - 1);
    }
  }

  lemma {:induction false} AndBit(x: nat, y: nat, k: nat)
    ensures Bit(And(x, y), k) <==> Bit(x, k) && Bit(y, k)
  {
    if x == 0 || y == 0 {
      ZeroHasNoBits(k);
    } else if k > 0 {
      AndBit(x / 2, y / 2, k - 1);
    }
  }

  lemma {:induction false} OrBit(x: nat, y: nat, k: nat)
    ensures Bit(Or(x, y), k) <==> Bit(x, k) || Bit(y, k)
  {
    if x == 0 || y == 0 {
      ZeroHasNoBits(k);
    } else if k > 0 {
      OrBit(x / 2, y / 2, k - 1);
    }
  }

  /** Complement on n digits flips each of them. */
  lemma {:induction false} FlipBit(x: nat, n: nat, k: nat)
    requires x < Pow2(n) && k < n
    ensures Bit(Pow2(n) - 1 - x, k) <==> !Bit(x, k)
  {
    var y: nat := Pow2(n - 1) - 1 - x / 2;
    assert Pow2(n) - 1 - x == 2 * y + (1 - x % 2);
    if k > 0 {
      FlipBit(x / 2, n - 1, k - 1);
    }
  }

  lemma {:induction false} Pow2Bit(j: nat, k: nat)
    ensures Bit(Pow2(j), k) <==> j == k
  {
    if k == 0 {
    } else if j == 0 {
      ZeroHasNoBits(k - 1);
    } else {
      Pow2Bit(j - 1, k - 1);
    }
  }

  /** Two numbers below 2^n with the same binary digits are equal. */
  lemma {:induction false} SameBits(x: nat, y: nat, n: nat)
    requires x < Pow2(n) && y < Pow2(n)
    requires forall k :: 0 <= k < n ==> (Bit(x, k) <==> Bit(y, k))
    ensures x == y
  {
    if n > 0 {
      assert Bit(x, 0) <==> Bit(y, 0);
      forall k | 0 <= k < n - 1 ensures Bit(x / 2, k) <==> Bit(y / 2, k) {
        assert Bit(x, k + 1) <==> Bit(y, k + 1);
      }
      SameBits(x / 2, y / 2, n - 1);
    }
  }

  /** `w & (1 << k)` is non-zero exactly when digit k of w is 1. */
  lemma TestBit(w: nat, k: nat)
    ensures And(w, Pow2(k)) != 0 <==> Bit(w, k)
  {
    AndBit(w, Pow2(k), k);
    Pow2Bit(k, k);
    ZeroHasNoBits(k);
    if And(w, Pow2(k)) != 0 {
      var j := HasBit(And(w, Pow2(k)));
      AndBit(w, Pow2(k), j);
      Pow2Bit(k, j);
    }
  }

  lemma {:induction false} HasBit(x: nat) returns (j: nat)
    requires x != 0
    ensures Bit(x, j)
  {
    if x % 2 == 1 {
      j := 0;
    } else {
      var i := HasBit(x / 2);
      j := i + 1;
    }
  }

  lemma {:induction false} AndBound(x: nat, y: nat)
    ensures And(x, y) <= x && And(x, y) <= y
  {
    if x != 0 && y != 0 {
      AndBound(x / 2, y / 2);
    }
  }

  lemma {:induction false} OrBound(x: nat, y: nat, n: nat)
    requires x < Pow2(n) && y < Pow2(n)
    ensures Or(x, y) < Pow2(n)
  {
    if x != 0 && y != 0 {
      OrBound(x / 2, y / 2, n - 1);
    }
  }

  /** `w | (1 << k)` sets digit k of a 32-bit word and no other. */
  lemma SetBit(w: word, k: nat)
    requires k < 32
    ensures Or(w, Pow2(k)) < WORD
    ensures forall j :: 0 <= j < 32 ==> (Bit(Or(w, Pow2(k)), j) <==> j == k || Bit(w, j))
  {
    Pow2Is(k);
    OrBound(w, Pow2(k), 32);
    forall j | 0 <= j < 32 ensures Bit(Or(w, Pow2(k)), j) <==> j == k || Bit(w, j) {
      OrBit(w, Pow2(k), j);
      Pow2Bit(k, j);
    }
  }

  /** `w & ~(1 << k)` clears digit k of a 32-bit word and no other. */
  lemma ClearBit(w: word, k: nat)
    requires k < 32
    ensures Pow2(k) < WORD && And(w, Not(Pow2(k))) < WORD
    ensures forall j :: 0 <= j < 32 ==> (Bit(And(w, Not(Pow2(k))), j) <==> j != k && Bit(w, j))
  {
    Pow2Is(k);
    AndBound(w, Not(Pow2(k)));
    forall j | 0 <= j < 32 ensures Bit(And(w, Not(Pow2(k))), j) <==> j != k && Bit(w, j) {
      AndBit(w, Not(Pow2(k)), j);
      FlipBit(Pow2(k), 32, j);
      Pow2Bit(k, j);
    }
  }

  ghost predicate AllOnes(w: word) {
    forall k :: 0 <= k < 32 ==> Bit(w, k)
  }

  /** The word with every digit set is 0xFFFFFFFF and only that one. */
  lemma FullWord(w: word)
    ensures w == 0xFFFF_FFFF <==> AllOnes(w)
  {
    Pow2Is(0);
    var full: word := Pow2(32) - 1 - 0;
    forall k | 0 <= k < 32 ensures Bit(full, k) {
      FlipBit(0, 32, k);
      ZeroHasNoBits(k);
    }
    if AllOnes(w) {
      SameBits(w, full, 32);
    }
  }

  // ---- Alignment by masks ----

  /** align_up: `(addr + align - 1) & ~(align - 1)` on 32-bit words. */
  function AlignUp(addr: word, align: word): (r: word) {
    AndBound((addr + align - 1) % WORD, Not((align - 1) % WORD));
    And((addr + align - 1) % WORD, Not((align - 1) % WORD))
  }

  /** align_down: `addr & ~(align - 1)` on 32-bit words. */
  function AlignDown(addr: word, align: word): (r: word) {
    AndBound(addr, Not((align - 1) % WORD));
    And(addr, Not((align - 1) % WORD))
  }

  /** is_aligned: `(addr & (align - 1)) == 0`. */
  predicate IsAligned(addr: word, align: word) {
    And(addr, (align - 1) % WORD) == 0
  }

  /** Masking an n-digit number with n - k ones followed by k zeros rounds it down to a multiple of 2^k. */
  lemma {:induction false} HighMask(x: nat, n: nat, k: nat)
    requires k <= n && x < Pow2(n) && Pow2(k) <= Pow2(n)
    ensures And(x, Pow2(n) - Pow2(k)) == x - x % Pow2(k)
  {
    if n == 0 {
    } else if k == 0 {
      HighMask(x / 2, n - 1, 0);
      AndHalves(x, Pow2(n - 1) - 1, 1);
    } else {
      HighMask(x / 2, n - 1, k - 1);
      AndHalves(x, Pow2(n - 1) - Pow2(k - 1), 0);
      HalfMod(x, Pow2(k - 1));
    }
  }

  /** The last digit of x & y, and the digits before it. */
  lemma AndHalves(x: nat, y: nat, d: nat)
    requires d < 2
    ensures And(x, 2 * y + d) == 2 * And(x / 2, y) + x % 2 * d
  {
    assert (2 * y + d) / 2 == y && (2 * y + d) % 2 == d;
  }

  lemma HalfMod(x: nat, p: int)
    requires p > 0
    ensures x % (2 * p) == 2 * ((x / 2) % p) + x % 2
  {
    var q, r := (x / 2) / p, (x / 2) % p;
    assert x == 2 * (q * p + r) + x % 2;
    assert x == q * (2 * p) + (2 * r + x % 2);
    DivModUnique(x, 2 * p, q, 2 * r + x % 2);
  }

  lemma DivModUnique(x: int, d: int, q: int, r: int)
    requires d > 0 && 0 <= r < d && x == q * d + r
    ensures x / d == q && x % d == r
  {
    var q', r' := x / d, x % d;
    MulDiff(q, q', d);
    if q > q' {
      MulAtLeast(q - q', d);
    } else if q < q' {
      MulDiff(q', q, d);
      MulAtLeast(q' - q, d);
    }
  }

  lemma MulDiff(a: int, b: int, d: int)
    ensures (a - b) * d == a * d - b * d
  {
  }

  lemma MulAtLeast(n: int, d: int)
    requires n >= 1 && d > 0
    ensures n * d >= d
  {
  }

  lemma {:induction false} LowMask(x: nat, k: nat)
    ensures And(x, Pow2(k) - 1) == x % Pow2(k)
  {
    if k > 0 {
      LowMask(x / 2, k - 1);
      AndHalves(x, Pow2(k - 1) - 1, 1);
      HalfMod(x, Pow2(k - 1));
    }
  }

  /** x - x % d is the multiple of d at or just below x. */
  lemma RoundDown(x: int, d: int)
    requires d > 0
    ensures 0 <= x % d < d && (x - x % d) % d == 0
  {
    DivModUnique(x - x % d, d, x / d, 0);
  }

  /** The mask ~(align - 1) of a power of two rounds a word down. */
  lemma MaskRounds(x: word, k: nat)
    requires k < 32
    ensures Pow2(k) < WORD && And(x, Not((Pow2(k) - 1) % WORD)) == x - x % Pow2(k)
  {
    Pow2Is(k);
    HighMask(x, 32, k);
    DivModUnique(Pow2(k) - 1, WORD, 0, Pow2(k) - 1);
    assert Not((Pow2(k) - 1) % WORD) == WORD - Pow2(k);
  }

  /** align_down returns the greatest multiple of a power of two that is not above the address. */
  lemma AlignDownGreatest(addr: word, k: nat)
    requires k < 32
    ensures Pow2(k) < WORD
    ensures AlignDown(addr, Pow2(k)) % Pow2(k) == 0
    ensures AlignDown(addr, Pow2(k)) <= addr < AlignDown(addr, Pow2(k)) + Pow2(k)
  {
    MaskRounds(addr, k);
    RoundDown(addr, Pow2(k));
  }

  lemma AlignUpRounds(addr: word, k: nat) returns (x: word)
    requires k < 32
    ensures Pow2(k) < WORD && AlignUp(addr, Pow2(k)) == x - x % Pow2(k)
    ensures x == if addr <= WORD - Pow2(k) then addr + Pow2(k) - 1 else addr + Pow2(k) - 1 - WORD
  {
    Pow2Is(k);
    x := (addr + Pow2(k) - 1) % WORD;
    if addr <= WORD - Pow2(k) {
      DivModUnique(addr + Pow2(k) - 1, WORD, 0, addr + Pow2(k) - 1);
    } else {
      DivModUnique(addr + Pow2(k) - 1, WORD, 1, addr + Pow2(k) - 1 - WORD);
    }
    MaskRounds(x, k);
  }

  /** align_up returns the least multiple of a power of two that is not below the address,
      exactly for the addresses up to 2^32 - align; above them it wraps to zero. */
  lemma AlignUpLeast(addr: word, k: nat)
    requires k < 32
    ensures Pow2(k) < WORD
    ensures AlignUp(addr, Pow2(k)) % Pow2(k) == 0
    ensures addr <= WORD - Pow2(k) <==> addr <= AlignUp(addr, Pow2(k)) < addr + Pow2(k)
    ensures addr > WORD - Pow2(k) ==> AlignUp(addr, Pow2(k)) == 0
  {
    var p := Pow2(k);
    var x := AlignUpRounds(addr, k);
    RoundDown(x, p);
    if addr > WORD - p {
      DivModUnique(x, p, 0, x);
    }
  }

  /** is_aligned tests divisibility by the power of two. */
  lemma IsAlignedIffMultiple(addr: word, k: nat)
    requires k < 32
    ensures Pow2(k) < WORD && (IsAligned(addr, Pow2(k)) <==> addr % Pow2(k) == 0)
  {
    Pow2Is(k);
    LowMask(addr, k);
    DivModUnique(Pow2(k) - 1, WORD, 0, Pow2(k) - 1);
  }

  /** The two alignments the heap asks for, in plain arithmetic. */
  lemma AlignTo8(x: word)
    ensures AlignUp(x, 8) == if x <= WORD - 8 then (x + 7) / 8 * 8 else 0
    ensures AlignDown(x, 8) == x / 8 * 8
    ensures AlignUp(x, 8) % 8 == 0 && AlignDown(x, 8) % 8 == 0
  {
    hide AlignUp, AlignDown;
    Pow2Is(3);
    AlignUpLeast(x, 3);
    AlignDownGreatest(x, 3);
  }
}
