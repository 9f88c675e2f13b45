/** Machine words.

    A `uint32` value is the mathematical integer it stands for. The C operators
    that truncate (`<<`, casts) are written with an explicit `%`; `&`, `|`, `<<`
    and `>>` are defined bit by bit, so that the code in the other modules can be
    transcribed operator by operator and its meaning proved, not assumed. */
module Words {
  import opened Arith

  const W32: int := 0x1_0000_0000
  const H32: int := 0x8000_0000
  const W64: int := 0x1_0000_0000_0000_0000
  const H64: int := 0x8000_0000_0000_0000

  type uint32 = x: int | 0 <= x < 0x1_0000_0000
  type int32 = x: int | -0x8000_0000 <= x < 0x8000_0000
  type int64 = x: int | -0x8000_0000_0000_0000 <= x < 0x8000_0000_0000_0000
  type uint16 = x: int | 0 <= x < 0x1_0000
  type uint8 = x: int | 0 <= x < 0x100

  // Conversion to a fixed-width type, in two's complement.
  function U32(x: int): uint32 { x % W32 }
  function I32(x: int): int32 { (x + H32) % W32 - H32 }
  function I64(x: int): int64 { (x + H64) % W64 - H64 }

  /** The conversions change nothing that fits. */
  lemma LemmaFits(x: int)
    ensures 0 <= x < W32 ==> U32(x) == x
    ensures -H32 <= x < H32 ==> I32(x) == x
    ensures -H64 <= x < H64 ==> I64(x) == x
  {
  }

  // ---- Bit-by-bit arithmetic ---------------------------------------------------

  /** 2^n. */
  function Pow2(n: nat): (r: nat)
    ensures r > 0
  {
    if n == 0 then 1 else 2 * Pow2(n - 1)
  }

  /** x * 2^n. */
  function Dbl(x: nat, n: nat): nat { if n == 0 then x else 2 * Dbl(x, n - 1) }

  /** x modulo 2^n. */
  function Low(x: nat, n: nat): nat { if n == 0 then 0 else x % 2 + 2 * Low(x / 2, n - 1) }

  /** The C operator `>>` on an unsigned value. */
  function Shr(x: nat, n: nat): nat { if n == 0 then x else Shr(x / 2, n - 1) }

  /** The C operator `<<` on a 32-bit unsigned value: the carry-out is lost. */
  function Shl(x: nat, n: nat): uint32 { U32(Dbl(x, n)) }

  function And(a: nat, b: nat): nat {
    if a == 0 then 0 else (if a % 2 == 1 && b % 2 == 1 then 1 else 0) + 2 * And(a / 2, b / 2)
  }

  function Or(a: nat, b: nat): nat
    decreases a + b
  {
    if a == 0 && b == 0 then 0 else (if a % 2 == 1 || b % 2 == 1 then 1 else 0) + 2 * Or(a / 2, b / 2)
  }

  function Not(a: uint32): uint32 { W32 - 1 - a }

  /** Bit `i` of `x`. */
  function Bit(x: nat, i: nat): nat { Shr(x, i) % 2 }

  /** `hi` above an `n`-bit field holding `lo`. */
  function Join(hi: nat, lo: nat, n: nat): nat { Dbl(hi, n) + lo }

  // ---- What the shifts mean ------------------------------------------------------

  lemma {:induction false} LemmaDblMul(x: nat, n: nat)
    ensures Dbl(x, n) == x * Pow2(n)
  {
    if n > 0 {
      LemmaDblMul(x, n - 1);
      LemmaTwice(x, Pow2(n - 1));
    }
  }

  lemma LemmaTwice(x: int, p: int)
    ensures 2 * (x * p) == x * (2 * p)
  {
  }

  lemma LemmaDivUnique(x: int, d: int, q: int, r: int)
    requires d > 0 && x == q * d + r && 0 <= r < d
    ensures x / d == q && x % d == r
  {
    var q' := x / d;
    assert q' * d <= x < q' * d + d;
    LemmaQuotients(q, q', d, x);
  }

  lemma LemmaQuotients(a: int, b: int, d: int, x: int)
    requires d > 0
    requires a * d <= x < a * d + d && b * d <= x < b * d + d
    ensures a == b
  {
    if a < b {
      LemmaMulMono(a + 1, b, d);
    }
    if b < a {
      LemmaMulMono(b + 1, a, d);
    }
  }

  lemma {:induction false} LemmaSplit(x: nat, n: nat)
    ensures x == Join(Shr(x, n), Low(x, n), n)
    ensures Low(x, n) < Pow2(n)
  {
    if n > 0 {
      LemmaSplit(x / 2, n - 1);
    }
  }

  /** `>>`, `<<` and the low field are division, multiplication and remainder by 2^n. */
  lemma LemmaShiftMeaning(x: nat, n: nat)
    ensures Dbl(x, n) == x * Pow2(n)
    ensures Shr(x, n) == x / Pow2(n)
    ensures Low(x, n) == x % Pow2(n)
  {
    LemmaDblMul(x, n);
    LemmaSplit(x, n);
    LemmaDblMul(Shr(x, n), n);
    LemmaDivUnique(x, Pow2(n), Shr(x, n), Low(x, n));
  }

  lemma LemmaPow2Values()
    ensures Pow2(0) == 1 && Pow2(1) == 2 && Pow2(2) == 4 && Pow2(3) == 8 && Pow2(4) == 16
    ensures Pow2(5) == 32 && Pow2(6) == 64 && Pow2(7) == 128 && Pow2(8) == 0x100
    ensures Pow2(16) == 0x1_0000 && Pow2(24) == 0x100_0000 && Pow2(31) == H32 && Pow2(32) == W32
  {
  }

  lemma {:induction false} LemmaPow2Mono(m: nat, n: nat)
    requires m <= n
    ensures Pow2(m) <= Pow2(n)
    decreases n
  {
    if m < n {
      LemmaPow2Mono(m, n - 1);
    }
  }

  /** The low field of constant width, as a remainder. */
  lemma LemmaLowMod(x: nat)
    ensures Low(x, 32) == U32(x) && Low(x, 31) == x % H32
  {
    LemmaPow2Values();
    LemmaLowRemainder(x, 32, W32);
    LemmaLowRemainder(x, 31, H32);
  }

  lemma LemmaLowRemainder(x: nat, n: nat, p: nat)
    requires Pow2(n) == p
    ensures Low(x, n) == x % p
  {
    LemmaShiftMeaning(x, n);
  }

  // ---- Shifts composed with each other ----------------------------------------------

  lemma {:induction false} LemmaShrAdd(x: nat, m: nat, n: nat)
    ensures Shr(Shr(x, m), n) == Shr(x, m + n)
  {
    if m > 0 {
      LemmaShrAdd(x / 2, m - 1, n);
    }
  }

  lemma {:induction false} LemmaDblAdd(x: nat, m: nat, n: nat)
    ensures Dbl(Dbl(x, m), n) == Dbl(x, m + n)
  {
    if n > 0 {
      LemmaDblAdd(x, m, n - 1);
    }
  }

  lemma {:induction false} LemmaPow2Dbl(n: nat)
    ensures Pow2(n) == Dbl(1, n)
  {
    if n > 0 {
      LemmaPow2Dbl(n - 1);
    }
  }

  lemma {:induction false} LemmaLowId(x: nat, n: nat)
    requires x < Pow2(n)
    ensures Low(x, n) == x && Shr(x, n) == 0
  {
    if n > 0 {
      LemmaLowId(x / 2, n - 1);
    }
  }

  lemma {:induction false} LemmaZeroShr(n: nat)
    ensures Shr(0, n) == 0 && Low(0, n) == 0 && Dbl(0, n) == 0
  {
    if n > 0 {
      LemmaZeroShr(n - 1);
    }
  }

  lemma {:induction false} LemmaLowLow(x: nat, m: nat, n: nat)
    requires n <= m
    ensures Low(Low(x, m), n) == Low(x, n)
  {
    if n > 0 {
      LemmaLowLow(x / 2, m - 1, n - 1);
    }
  }

  lemma {:induction false} LemmaLowDbl(x: nat, n: nat, s: nat)
    ensures Low(Dbl(x, s), n + s) == Dbl(Low(x, n), s)
  {
    if s > 0 {
      LemmaLowDbl(x, n, s - 1);
    }
  }

  /** The two fields of `Join` can be read back. */
  lemma {:induction false} LemmaJoin(hi: nat, lo: nat, n: nat)
    requires lo < Pow2(n)
    ensures Shr(Join(hi, lo, n), n) == hi && Low(Join(hi, lo, n), n) == lo
  {
    if n > 0 {
      LemmaJoin(hi, lo / 2, n - 1);
      assert Join(hi, lo, n) / 2 == Join(hi, lo / 2, n - 1);
    }
  }

  /** `Join` orders values by the high field first. */
  lemma {:induction false} LemmaJoinOrder(a: nat, x: nat, b: nat, y: nat, n: nat)
    requires x < Pow2(n) && y < Pow2(n)
    ensures Join(a, x, n) < Join(b, y, n) <==> a < b || (a == b && x < y)
    decreases n
  {
    if n > 0 {
      LemmaJoinOrder(a, x / 2, b, y / 2, n - 1);
      LemmaJoinOrder(b, y / 2, a, x / 2, n - 1);
      assert Join(a, x, n) == 2 * Join(a, x / 2, n - 1) + x % 2;
      assert Join(b, y, n) == 2 * Join(b, y / 2, n - 1) + y % 2;
    }
  }

  lemma {:induction false} LemmaJoinBound(a: nat, x: nat, m: nat, n: nat)
    requires a < Pow2(m) && x < Pow2(n)
    ensures Join(a, x, n) < Pow2(m + n)
  {
    if n > 0 {
      LemmaJoinBound(a, x / 2, m, n - 1);
      assert Join(a, x, n) == 2 * Join(a, x / 2, n - 1) + x % 2;
    }
  }

  /** Two numbers below 2^n with the same bits are equal. */
  lemma {:induction false} LemmaBitsDetermine(x: nat, y: nat, n: nat)
    requires x < Pow2(n) && y < Pow2(n)
    requires forall i: nat | i < n :: Bit(x, i) == Bit(y, i)
    ensures x == y
  {
    if n > 0 {
      assert Bit(x, 0) == Bit(y, 0);
      forall i: nat | i < n - 1 ensures Bit(x / 2, i) == Bit(y / 2, i) {
        assert Bit(x, i + 1) == Bit(y, i + 1);
      }
      LemmaBitsDetermine(x / 2, y / 2, n - 1);
    }
  }

  // ---- The bitwise operators act field by field -----------------------------------------

  lemma LemmaAndStep(a: nat, b: nat)
    ensures And(a, b) == (if a % 2 == 1 && b % 2 == 1 then 1 else 0) + 2 * And(a / 2, b / 2)
  {
  }

  lemma LemmaOrStep(a: nat, b: nat)
    ensures Or(a, b) == (if a % 2 == 1 || b % 2 == 1 then 1 else 0) + 2 * Or(a / 2, b / 2)
  {
  }

  lemma LemmaJoinStep(a: nat, x: nat, n: nat)
    requires n > 0
    ensures Join(a, x, n) % 2 == x % 2
    ensures Join(a, x, n) / 2 == Join(a, x / 2, n - 1)
  {
  }

  lemma {:induction false} LemmaAndJoin(a: nat, x: nat, b: nat, y: nat, n: nat)
    requires x < Pow2(n) && y < Pow2(n)
    ensures And(Join(a, x, n), Join(b, y, n)) == Join(And(a, b), And(x, y), n)
  {
    if n > 0 {
      LemmaAndJoin(a, x / 2, b, y / 2, n - 1);
      LemmaJoinStep(a, x, n);
      LemmaJoinStep(b, y, n);
      LemmaAndStep(Join(a, x, n), Join(b, y, n));
      LemmaAndStep(x, y);
    } else {
      assert And(x, y) == 0;
    }
  }

  lemma {:induction false} LemmaOrJoin(a: nat, x: nat, b: nat, y: nat, n: nat)
    requires x < Pow2(n) && y < Pow2(n)
    ensures Or(Join(a, x, n), Join(b, y, n)) == Join(Or(a, b), Or(x, y), n)
  {
    if n > 0 {
      LemmaOrJoin(a, x / 2, b, y / 2, n - 1);
      LemmaJoinStep(a, x, n);
      LemmaJoinStep(b, y, n);
      LemmaOrStep(Join(a, x, n), Join(b, y, n));
      LemmaOrStep(x, y);
    } else {
      assert Or(x, y) == 0;
    }
  }

  lemma {:induction false} LemmaAndZero(a: nat)
    ensures And(a, 0) == 0 && And(0, a) == 0
  {
    if a > 0 {
      LemmaAndZero(a / 2);
    }
  }

  lemma {:induction false} LemmaOrZero(a: nat)
    ensures Or(a, 0) == a && Or(0, a) == a
  {
    if a > 0 {
      LemmaOrZero(a / 2);
    }
  }

  lemma {:induction false} LemmaAndOnes(x: nat, n: nat)
    requires x < Pow2(n)
    ensures And(x, Pow2(n) - 1) == x
  {
    if n > 0 {
      LemmaAndOnes(x / 2, n - 1);
      assert (Pow2(n) - 1) % 2 == 1 && (Pow2(n) - 1) / 2 == Pow2(n - 1) - 1;
      LemmaAndStep(x, Pow2(n) - 1);
    }
  }

  /** Masking with 2^n - 1 keeps the low `n` bits. */
  lemma LemmaAndMask(x: nat, n: nat)
    ensures And(x, Pow2(n) - 1) == Low(x, n)
  {
    LemmaSplit(x, n);
    LemmaZeroShr(n);
    LemmaAndJoin(Shr(x, n), Low(x, n), 0, Pow2(n) - 1, n);
    LemmaAndZero(Shr(x, n));
    LemmaAndOnes(Low(x, n), n);
  }

  /** Masking with ~(2^n - 1) clears the low `n` bits. */
  lemma LemmaAndNotMask(x: uint32, n: nat)
    requires n <= 32
    ensures Pow2(n) <= W32 && And(x, Not(Pow2(n) - 1)) == x - Low(x, n)
  {
    LemmaSplit(x, n);
    LemmaOnesAbove(n);
    LemmaWordHigh(x, n);
    LemmaAndJoin(Shr(x, n), Low(x, n), Pow2(32 - n) - 1, 0, n);
    LemmaAndOnes(Shr(x, n), 32 - n);
    LemmaAndZero(Low(x, n));
  }

  lemma LemmaWordHigh(x: uint32, n: nat)
    requires n <= 32
    ensures Shr(x, n) < Pow2(32 - n)
  {
    LemmaPow2Values();
    LemmaHighBound(x, 32 - n, n);
  }

  lemma LemmaOnesAbove(n: nat)
    requires n <= 32
    ensures Pow2(n) <= W32 && Not(Pow2(n) - 1) == Join(Pow2(32 - n) - 1, 0, n)
  {
    LemmaPow2Values();
    LemmaPow2Mono(n, 32);
    LemmaDblRun(32 - n, 0, n);
  }

  /** A run of ones, 2^m - 2^j, shifted left. */
  lemma {:induction false} LemmaDblRun(m: nat, j: nat, n: nat)
    requires j <= m
    ensures Pow2(j) <= Pow2(m)
    ensures Dbl(Pow2(m) - Pow2(j), n) == Pow2(m + n) - Pow2(j + n)
  {
    LemmaPow2Mono(j, m);
    if n > 0 {
      LemmaDblRun(m, j, n - 1);
    }
  }

  /** The high field of a number below 2^(m+n) is below 2^m. */
  lemma {:induction false} LemmaHighBound(x: nat, m: nat, n: nat)
    requires x < Pow2(m + n)
    ensures Shr(x, n) < Pow2(m)
  {
    if n > 0 {
      LemmaHighBound(x / 2, m, n - 1);
    }
  }

  /** `|` of values that share no bit position is their sum. */
  lemma LemmaOrDisjoint(a: nat, b: nat, n: nat)
    requires b < Pow2(n)
    ensures Or(Dbl(a, n), b) == Join(a, b, n)
  {
    LemmaZeroShr(n);
    LemmaOrJoin(a, 0, 0, b, n);
    LemmaOrZero(a);
    LemmaOrZero(b);
  }

  // ---- Byte lanes of a 32-bit word ------------------------------------------------------

  /** Byte lane `k` of the word `w`, counting from the least significant byte. */
  function Lane(w: nat, k: nat): (b: uint8)
    decreases k
  {
    if k == 0 then w % 0x100 else Lane(w / 0x100, k - 1)
  }

  /** The word `w` with lane `k` replaced by `b`. */
  function WithLane(w: nat, k: nat, b: uint8): nat
    decreases k
  {
    if k == 0 then w / 0x100 * 0x100 + b else w % 0x100 + 0x100 * WithLane(w / 0x100, k - 1, b)
  }

  /** Replacing lane `k` sets it and leaves every other lane as it was. */
  lemma {:induction false} LemmaLanes(w: nat, k: nat, b: uint8, j: nat)
    ensures Lane(WithLane(w, k, b), j) == if j == k then b else Lane(w, j)
    decreases k
  {
    if k == 0 {
      assert WithLane(w, 0, b) / 0x100 == w / 0x100;
    } else {
      assert WithLane(w, k, b) / 0x100 == WithLane(w / 0x100, k - 1, b);
      if j > 0 {
        LemmaLanes(w / 0x100, k - 1, b, j - 1);
      }
    }
  }

  /** A byte below the bytes above it. */
  function WithLow(x: nat, rest: nat): nat { x + 0x100 * rest }

  /** A word from its bytes, least significant first. */
  function Word(b0: nat, b1: nat, b2: nat, b3: nat): nat { WithLow(b0, WithLow(b1, WithLow(b2, b3))) }

  lemma LemmaDblByte(x: nat)
    ensures Dbl(x, 8) == 0x100 * x
  {
    LemmaDblMul(x, 8);
    assert Pow2(8) == 0x100;
  }

  lemma LemmaDblBytes(x: nat)
    ensures Dbl(x, 0) == x && Dbl(x, 8) == 0x100 * x
    ensures Dbl(x, 16) == 0x1_0000 * x && Dbl(x, 24) == 0x100_0000 * x
  {
    LemmaDblByte(x);
    LemmaDblByte(0x100 * x);
    LemmaDblByte(0x1_0000 * x);
    LemmaDblAdd(x, 8, 8);
    LemmaDblAdd(x, 16, 8);
  }

  lemma LemmaAndByte(a: nat, x: uint8, b: nat, y: uint8)
    ensures And(WithLow(x, a), WithLow(y, b)) == WithLow(And(x, y), And(a, b))
  {
    assert Pow2(8) == 0x100;
    LemmaDblByte(a);
    LemmaDblByte(b);
    LemmaDblByte(And(a, b));
    LemmaAndJoin(a, x, b, y, 8);
  }

  lemma LemmaOrByte(a: nat, x: uint8, b: nat, y: uint8)
    ensures Or(WithLow(x, a), WithLow(y, b)) == WithLow(Or(x, y), Or(a, b))
  {
    assert Pow2(8) == 0x100;
    LemmaDblByte(a);
    LemmaDblByte(b);
    LemmaDblByte(Or(a, b));
    LemmaOrJoin(a, x, b, y, 8);
  }

  lemma LemmaAndWord(a0: uint8, a1: uint8, a2: uint8, a3: uint8, b0: uint8, b1: uint8, b2: uint8, b3: uint8)
    ensures And(Word(a0, a1, a2, a3), Word(b0, b1, b2, b3))
         == Word(And(a0, b0), And(a1, b1), And(a2, b2), And(a3, b3))
  {
    var a, b := WithLow(a1, WithLow(a2, a3)), WithLow(b1, WithLow(b2, b3));
    calc {
      And(WithLow(a0, a), WithLow(b0, b));
      { LemmaAndByte(a, a0, b, b0); }
      WithLow(And(a0, b0), And(a, b));
      { LemmaAndByte(WithLow(a2, a3), a1, WithLow(b2, b3), b1); }
      WithLow(And(a0, b0), WithLow(And(a1, b1), And(WithLow(a2, a3), WithLow(b2, b3))));
      { LemmaAndByte(a3, a2, b3, b2); }
      WithLow(And(a0, b0), WithLow(And(a1, b1), WithLow(And(a2, b2), And(a3, b3))));
    }
  }

  lemma LemmaOrWord(a0: uint8, a1: uint8, a2: uint8, a3: uint8, b0: uint8, b1: uint8, b2: uint8, b3: uint8)
    ensures Or(Word(a0, a1, a2, a3), Word(b0, b1, b2, b3))
         == Word(Or(a0, b0), Or(a1, b1), Or(a2, b2), Or(a3, b3))
  {
    var a, b := WithLow(a1, WithLow(a2, a3)), WithLow(b1, WithLow(b2, b3));
    calc {
      Or(WithLow(a0, a), WithLow(b0, b));
      { LemmaOrByte(a, a0, b, b0); }
      WithLow(Or(a0, b0), Or(a, b));
      { LemmaOrByte(WithLow(a2, a3), a1, WithLow(b2, b3), b1); }
      WithLow(Or(a0, b0), WithLow(Or(a1, b1), Or(WithLow(a2, a3), WithLow(b2, b3))));
      { LemmaOrByte(a3, a2, b3, b2); }
      WithLow(Or(a0, b0), WithLow(Or(a1, b1), WithLow(Or(a2, b2), Or(a3, b3))));
    }
  }

  lemma LemmaBytesOf(w: uint32)
    ensures w == Word(Lane(w, 0), Lane(w, 1), Lane(w, 2), Lane(w, 3))
  {
    var q1, q2, q3 := w / 0x100, w / 0x100 / 0x100, w / 0x100 / 0x100 / 0x100;
    LemmaPeel(w, 0x100_0000);
    LemmaPeel(q1, 0x1_0000);
    LemmaPeel(q2, 0x100);
    LemmaPeel(q3, 1);
    LemmaLaneStep(w, 0);
    LemmaLaneStep(w, 1);
    LemmaLaneStep(w, 2);
    LemmaLaneStep(q1, 0);
    LemmaLaneStep(q1, 1);
    LemmaLaneStep(q2, 0);
  }

  lemma LemmaPeel(x: nat, p: nat)
    requires x < 0x100 * p
    ensures x == WithLow(Lane(x, 0), x / 0x100) && x / 0x100 < p
  {
  }

  lemma LemmaLaneStep(w: nat, k: nat)
    ensures Lane(w, k + 1) == Lane(w / 0x100, k)
  {
  }

  lemma LemmaAndFull(x: uint8)
    ensures And(x, 0xFF) == x && And(x, 0) == 0
  {
    assert Pow2(8) == 0x100;
    LemmaAndOnes(x, 8);
    LemmaAndZero(x);
  }

  /** `w & ~(0xFF << s)` clears one lane and keeps the others. */
  lemma LemmaClearByte(w: uint32, k: nat)
    requires k < 4
    ensures And(w, Not(Shl(0xFF, 8 * k))) ==
              Word(if k == 0 then 0 else Lane(w, 0), if k == 1 then 0 else Lane(w, 1),
                   if k == 2 then 0 else Lane(w, 2), if k == 3 then 0 else Lane(w, 3))
  {
    var b0, b1, b2, b3 := Lane(w, 0), Lane(w, 1), Lane(w, 2), Lane(w, 3);
    LemmaBytesOf(w);
    LemmaClearMask(k);
    LemmaAndWord(b0, b1, b2, b3, if k == 0 then 0 else 0xFF, if k == 1 then 0 else 0xFF,
                 if k == 2 then 0 else 0xFF, if k == 3 then 0 else 0xFF);
    LemmaAndFull(b0);
    LemmaAndFull(b1);
    LemmaAndFull(b2);
    LemmaAndFull(b3);
  }

  lemma LemmaClearMask(k: nat)
    requires k < 4
    ensures Not(Shl(0xFF, 8 * k)) == Word(if k == 0 then 0 else 0xFF, if k == 1 then 0 else 0xFF,
                                          if k == 2 then 0 else 0xFF, if k == 3 then 0 else 0xFF)
  {
    LemmaShlByte(k, 0xFF);
  }

  /** A byte shifted into lane `k` of an otherwise empty word. */
  lemma LemmaShlByte(k: nat, b: uint8)
    requires k < 4
    ensures Shl(b, 8 * k) == Dbl(b, 8 * k)
    ensures Shl(b, 8 * k) == Word(if k == 0 then b else 0, if k == 1 then b else 0,
                                  if k == 2 then b else 0, if k == 3 then b else 0)
  {
    LemmaDblBytes(b);
    assert 8 * k == 0 || 8 * k == 8 || 8 * k == 16 || 8 * k == 24;
    LemmaFits(Dbl(b, 8 * k));
  }

  /** The read-modify-write `(w & ~(0xFF << s)) | (b << s)` replaces exactly one lane. */
  lemma LemmaInsertByte(w: uint32, k: nat, b: uint8)
    requires k < 4
    ensures Or(And(w, Not(Shl(0xFF, 8 * k))), Shl(b, 8 * k)) == WithLane(w, k, b)
    ensures WithLane(w, k, b) < W32
  {
    var b0, b1, b2, b3 := Lane(w, 0), Lane(w, 1), Lane(w, 2), Lane(w, 3);
    LemmaClearByte(w, k);
    LemmaShlByte(k, b);
    LemmaOrWord(if k == 0 then 0 else b0, if k == 1 then 0 else b1, if k == 2 then 0 else b2, if k == 3 then 0 else b3,
                if k == 0 then b else 0, if k == 1 then b else 0, if k == 2 then b else 0, if k == 3 then b else 0);
    LemmaOrZero(b);
    LemmaOrZero(b0);
    LemmaOrZero(b1);
    LemmaOrZero(b2);
    LemmaOrZero(b3);
    LemmaWithLaneWord(b0, b1, b2, b3, k, b);
    LemmaBytesOf(w);
  }

  lemma LemmaWithLaneWord(b0: uint8, b1: uint8, b2: uint8, b3: uint8, k: nat, b: uint8)
    requires k < 4
    ensures WithLane(Word(b0, b1, b2, b3), k, b) ==
              Word(if k == 0 then b else b0, if k == 1 then b else b1,
                   if k == 2 then b else b2, if k == 3 then b else b3)
  {
    var w1 := b1 + 0x100 * (b2 + 0x100 * b3);
    var w2 := b2 + 0x100 * b3;
    assert Word(b0, b1, b2, b3) / 0x100 == w1 && w1 / 0x100 == w2 && w2 / 0x100 == b3;
    assert WithLane(b3, 0, b) == b;
    assert k >= 2 ==> WithLane(w2, k - 2, b) == if k == 2 then b + 0x100 * b3 else b2 + 0x100 * b;
    assert k >= 1 ==> WithLane(w1, k - 1, b) == if k == 1 then b + 0x100 * w2 else b1 + 0x100 * WithLane(w2, k - 2, b);
  }

  /** `(w >> s) & 0xFF` reads one lane. */
  lemma LemmaReadByte(w: nat, k: nat)
    ensures And(Shr(w, 8 * k), 0xFF) == Lane(w, k)
  {
    assert Pow2(8) == 0x100;
    LemmaAndMask(Shr(w, 8 * k), 8);
    LemmaLaneShr(w, k);
    LemmaLowRemainder(Shr(w, 8 * k), 8, 0x100);
  }

  lemma {:induction false} LemmaLaneShr(w: nat, k: nat)
    ensures Lane(w, k) == Shr(w, 8 * k) % 0x100
    decreases k
  {
    if k > 0 {
      LemmaShrAdd(w, 8, 8 * k - 8);
      LemmaShiftMeaning(w, 8);
      assert Pow2(8) == 0x100;
      LemmaLaneShr(w / 0x100, k - 1);
    }
  }
}
