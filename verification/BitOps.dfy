/** The software bit algorithms that CMSIS falls back to on Armv6-M cores. */
module BitOps {
  import opened Words

  // ---- Bit reversal ---------------------------------------------------------------

  /** The low `n` bits of `v` in reverse order. */
  function Reversed(v: nat, n: nat): nat {
    if n == 0 then 0 else 2 * Reversed(v, n - 1) + Bit(v, n - 1)
  }

  /** `__RBIT` for GCC: the loop stops at the highest set bit of `value`, by which time
      `result` still holds bits of the input above the reversed ones. */
  method RbitGcc(v: uint32) returns (result: uint32)
    ensures result == Reversed(v, 32)
  {
    var value: uint32 := v;
    var s: uint32 := 31;
    StartReversal(v);
    result := value;
    value := Shr(value, 1);
    while value != 0
      invariant ReversalState(v, value, result, s)
      decreases value
    {
      ReversalStep(v, value, result, s);
      result := Shl(result, 1);
      result := Or(result, And(value, 1));
      s := s - 1;
      value := Shr(value, 1);
    }
    ReversalEnd(v, result, s);
    result := Shl(result, s);
  }

  /** `__RBIT` for IAR, with its 8-bit shift counter. */
  method RbitIar(v: uint32) returns (result: uint32)
    ensures result == Reversed(v, 32)
  {
    var value: uint32 := v;
    var sc: uint8 := 31;
    var r: uint32 := value;
    StartReversal(v);
    value := Shr(value, 1);
    while value != 0
      invariant ReversalState(v, value, r, sc)
      decreases value
    {
      ReversalStep(v, value, r, sc);
      r := Shl(r, 1);
      r := Or(r, And(value, 1));
      sc := sc - 1;
      value := Shr(value, 1);
    }
    ReversalEnd(v, r, sc);
    result := Shl(r, sc);
  }

  /** After `31 - s` rounds, the low `32 - s` bits of `result` are the low bits of the
      input reversed, and `value` is what is left of the input above them. */
  ghost predicate ReversalState(v: uint32, value: nat, result: uint32, s: int) {
    && 0 <= s <= 31
    && value == Shr(v, 32 - s)
    && Low(result, 32 - s) == Reversed(v, 32 - s)
  }

  lemma StartReversal(v: uint32)
    ensures Shr(v, 1) < W32 && ReversalState(v, Shr(v, 1), v, 31)
  {
    assert Shr(v, 1) == v / 2;
    assert Low(v, 1) == v % 2 == Bit(v, 0);
    assert Reversed(v, 1) == 2 * Reversed(v, 0) + Bit(v, 0);
  }

  lemma ReversalStep(v: uint32, value: nat, result: uint32, s: int)
    requires value != 0 && ReversalState(v, value, result, s)
    ensures s > 0 && Or(Shl(result, 1), And(value, 1)) < W32
    ensures Shr(value, 1) < value
    ensures ReversalState(v, Shr(value, 1), Or(Shl(result, 1), And(value, 1)), s - 1)
  {
    if s == 0 {
      LemmaPow2Values();
      LemmaLowId(v, 32);
      assert false;
    }
    LemmaAppendBit(result, value);
    LemmaShrAdd(v, 32 - s, 1);
    LemmaLowGrows(result, value % 2, 32 - s);
  }

  lemma LemmaLowGrows(result: uint32, bit: nat, n: nat)
    requires bit < 2 && n <= 31
    ensures Low(2 * Low(result, 31) + bit, n + 1) == 2 * Low(result, n) + bit
  {
    LemmaLowLow(result, 31, n);
    assert (2 * Low(result, 31) + bit) / 2 == Low(result, 31);
  }

  /** One round: the bit that falls off the top is lost, the lowest bit of `value` comes in. */
  lemma LemmaAppendBit(result: uint32, value: nat)
    ensures And(value, 1) == value % 2
    ensures Or(Shl(result, 1), And(value, 1)) == 2 * Low(result, 31) + value % 2
    ensures 2 * Low(result, 31) + value % 2 < W32
  {
    LemmaLowBit(value);
    LemmaLow31(result);
    LemmaOrDisjoint(Low(result, 31), value % 2, 1);
  }

  lemma LemmaLowBit(value: nat)
    ensures And(value, 1) == value % 2
  {
    LemmaAndMask(value, 1);
    assert Low(value, 1) == value % 2;
  }

  lemma LemmaLow31(x: uint32)
    ensures Low(x, 31) == x % H32
    ensures Shl(x, 1) == Dbl(Low(x, 31), 1) == 2 * Low(x, 31)
  {
    LemmaLowMod(x);
    assert Dbl(x, 1) == 2 * Dbl(x, 0);
    assert Dbl(Low(x, 31), 1) == 2 * Dbl(Low(x, 31), 0);
    LemmaDoubleMod(x);
  }

  lemma LemmaDoubleMod(x: uint32)
    ensures U32(2 * x) == 2 * (x % H32)
  {
    if x < H32 {
      LemmaFits(2 * x);
    } else {
      assert 2 * x == W32 + 2 * (x - H32);
    }
  }

  lemma ReversalEnd(v: uint32, result: uint32, s: int)
    requires ReversalState(v, 0, result, s)
    ensures Shl(result, s) == Reversed(v, 32)
  {
    LemmaLowMod(Dbl(result, s));
    LemmaLowDbl(result, 32 - s, s);
    LemmaNoMoreBits(v, 32 - s, s);
  }

  lemma {:induction false} LemmaNoMoreBits(v: nat, m: nat, j: nat)
    requires Shr(v, m) == 0
    ensures Reversed(v, m + j) == Dbl(Reversed(v, m), j)
  {
    if j > 0 {
      LemmaNoMoreBits(v, m, j - 1);
      LemmaShrAdd(v, m, j - 1);
      LemmaZeroShr(j - 1);
    }
  }

  lemma {:induction false} LemmaReversedBits(v: nat, n: nat, i: nat)
    requires i < n
    ensures Bit(Reversed(v, n), i) == Bit(v, n - 1 - i)
  {
    if i > 0 {
      LemmaReversedBits(v, n - 1, i - 1);
    }
  }

  lemma {:induction false} LemmaReversedBound(v: nat, n: nat)
    ensures Reversed(v, n) < Pow2(n)
  {
    if n > 0 {
      LemmaReversedBound(v, n - 1);
    }
  }

  /** What both `__RBIT` loops return: a 32-bit word whose bit `i` is bit `31 - i` of the input. */
  lemma RbitMirrorsBits(v: uint32)
    ensures Reversed(v, 32) < W32
    ensures forall i: nat | i < 32 :: Bit(Reversed(v, 32), i) == Bit(v, 31 - i)
  {
    LemmaPow2Values();
    LemmaReversedBound(v, 32);
    forall i: nat | i < 32 ensures Bit(Reversed(v, 32), i) == Bit(v, 31 - i) {
      LemmaReversedBits(v, 32, i);
    }
  }

  /** Reversing twice gives the word back. */
  lemma RbitInvolution(v: uint32)
    ensures Reversed(v, 32) < W32 && Reversed(Reversed(v, 32), 32) == v
  {
    LemmaPow2Values();
    var r := Reversed(v, 32);
    RbitMirrorsBits(v);
    RbitMirrorsBits(r);
    forall i: nat | i < 32 ensures Bit(Reversed(r, 32), i) == Bit(v, i) {
      assert Bit(Reversed(r, 32), i) == Bit(r, 31 - i);
    }
    LemmaBitsDetermine(Reversed(r, 32), v, 32);
  }

  // ---- Leading and trailing zeros -----------------------------------------------------

  /** `n` zeros stand above the highest set bit of the 32-bit word `x`. */
  ghost predicate LeadingZeros(x: uint32, n: nat) {
    if x == 0 then n == 32 else n < 32 && Pow2(31 - n) <= x < Pow2(32 - n)
  }

  /** `n` zeros stand below the lowest set bit of the 32-bit word `x`. */
  ghost predicate TrailingZeros(x: uint32, n: nat) {
    if x == 0 then n == 32
    else n < 32 && Bit(x, n) == 1 && forall i: nat | i < n :: Bit(x, i) == 0
  }

  method Clz(data: uint32) returns (count: uint8)
    ensures LeadingZeros(data, count)
  {
    if data == 0 {
      return 32;
    }
    count := 0;
    var mask: uint32 := 0x8000_0000;
    ClzStart(data);
    while And(data, mask) == 0
      invariant ClzState(data, count, mask)
      decreases 32 - count
    {
      ClzStep(data, count, mask);
      count := count + 1;
      mask := Shr(mask, 1);
    }
    LemmaTestBit(data, 31 - count);
    LemmaTopBit(data, 31 - count);
  }

  /** `mask` selects bit `31 - count` and every bit above it has been found zero. */
  ghost predicate ClzState(data: uint32, count: int, mask: nat) {
    0 <= count < 32 && mask == Pow2(31 - count) && Shr(data, 32 - count) == 0
  }

  lemma ClzStart(data: uint32)
    ensures ClzState(data, 0, 0x8000_0000)
  {
    LemmaPow2Values();
    LemmaLowId(data, 32);
  }

  lemma ClzStep(data: uint32, count: int, mask: nat)
    requires data != 0 && ClzState(data, count, mask) && And(data, mask) == 0
    ensures Shr(mask, 1) <= mask && ClzState(data, count + 1, Shr(mask, 1))
  {
    LemmaTestBit(data, 31 - count);
    assert Shr(mask, 1) == mask / 2;
  }

  /** The mask test reads one bit; with nothing above it, that bit is the whole shifted value. */
  lemma LemmaTestBit(x: nat, n: nat)
    ensures And(x, Pow2(n)) == 0 <==> Bit(x, n) == 0
    ensures Shr(x, n) == 2 * Shr(x, n + 1) + Bit(x, n)
  {
    LemmaSplit(x, n);
    LemmaPow2Dbl(n);
    LemmaAndJoin(Shr(x, n), Low(x, n), 1, 0, n);
    LemmaAndZero(Low(x, n));
    LemmaAndStep(Shr(x, n), 1);
    LemmaAndZero(Shr(x, n) / 2);
    LemmaZeroShr(n);
    LemmaShrAdd(x, n, 1);
  }

  lemma {:induction false} LemmaTopBit(x: nat, n: nat)
    ensures Shr(x, n) == 1 <==> Pow2(n) <= x < Pow2(n + 1)
  {
    if n > 0 {
      LemmaTopBit(x / 2, n - 1);
    }
  }

  /** There is at most one such count. */
  lemma LeadingZerosUnique(x: uint32, m: nat, n: nat)
    requires LeadingZeros(x, m) && LeadingZeros(x, n)
    ensures m == n
  {
    if x != 0 && m < n {
      LemmaPow2Mono(32 - n, 31 - m);
    } else if x != 0 && n < m {
      LemmaPow2Mono(32 - m, 31 - n);
    }
  }

  lemma LemmaHighestBit(x: uint32, n: nat)
    requires n < 32
    ensures Pow2(31 - n) <= x < Pow2(32 - n) <==>
            Bit(x, 31 - n) == 1 && forall p: nat | 31 - n < p < 32 :: Bit(x, p) == 0
    decreases n
  {
    LemmaTopBit(x, 31 - n);
    LemmaTestBit(x, 31 - n);
    if Shr(x, 32 - n) == 0 {
      forall p: nat | 31 - n < p < 32 ensures Bit(x, p) == 0 {
        LemmaShrAdd(x, 32 - n, p - (32 - n));
        LemmaZeroShr(p - (32 - n));
      }
    } else if forall p: nat | 31 - n < p < 32 :: Bit(x, p) == 0 {
      LemmaZeroAbove(x, n);
    }
  }

  lemma {:induction false} LemmaZeroAbove(x: uint32, n: nat)
    requires n <= 32 && forall p: nat | 31 - n < p < 32 :: Bit(x, p) == 0
    ensures Shr(x, 32 - n) == 0
  {
    if n == 0 {
      LemmaPow2Values();
      LemmaLowId(x, 32);
    } else {
      LemmaZeroAbove(x, n - 1);
      LemmaTestBit(x, 32 - n);
      assert Bit(x, 31 - (n - 1)) == 0;
    }
  }

  /** `__CLZ(__RBIT(x))` counts the trailing zeros of `x`. */
  lemma ClzOfRbit(x: uint32, n: nat)
    ensures Reversed(x, 32) < W32
    ensures LeadingZeros(Reversed(x, 32), n) <==> TrailingZeros(x, n)
  {
    var r := Reversed(x, 32);
    RbitMirrorsBits(x);
    RbitInvolution(x);
    LemmaReversedZero(32);
    if x != 0 && n < 32 {
      LemmaHighestBit(r, n);
      forall p: nat | 31 - n < p < 32 ensures Bit(r, p) == Bit(x, 31 - p) {
      }
      if forall p: nat | 31 - n < p < 32 :: Bit(r, p) == 0 {
        forall i: nat | i < n ensures Bit(x, i) == 0 {
          assert Bit(r, 31 - i) == 0;
        }
      }
    }
  }

  lemma {:induction false} LemmaReversedZero(n: nat)
    ensures Reversed(0, n) == 0
  {
    if n > 0 {
      LemmaReversedZero(n - 1);
      LemmaZeroShr(n - 1);
    }
  }

  // ---- Rotation and saturation --------------------------------------------------------------

  function Ror(op1: uint32, op2: uint32): nat {
    var k := op2 % 32;
    if k == 0 then op1 else Or(Shr(op1, k), Shl(op1, 32 - k))
  }

  /** `__ROR`: every bit moves down by `op2` places, and those that fall out come in at the top. */
  lemma RorMovesBits(x: uint32, op2: uint32, i: nat)
    requires i < 32
    ensures Ror(x, op2) < W32
    ensures Bit(Ror(x, op2), i) == Bit(x, (i + op2) % 32)
  {
    var k := op2 % 32;
    if k > 0 {
      LemmaRorJoin(x, k);
      LemmaRotatedBit(x, k, i);
    }
    assert (i + op2) % 32 == if i + k < 32 then i + k else i + k - 32;
  }

  lemma LemmaRorJoin(x: uint32, k: nat)
    requires 0 < k < 32
    ensures Shr(x, k) < Pow2(32 - k)
    ensures Or(Shr(x, k), Shl(x, 32 - k)) == Join(Low(x, k), Shr(x, k), 32 - k) < W32
  {
    LemmaWordHigh(x, k);
    LemmaShlLow(x, k);
    LemmaOrCommutes(Shr(x, k), Shl(x, 32 - k));
    LemmaOrDisjoint(Low(x, k), Shr(x, k), 32 - k);
    LemmaSplit(x, k);
    LemmaJoinBound(Low(x, k), Shr(x, k), k, 32 - k);
    LemmaPow2Values();
  }

  lemma LemmaShlLow(x: uint32, k: nat)
    requires k <= 32
    ensures Shl(x, 32 - k) == Dbl(Low(x, k), 32 - k)
  {
    LemmaLowMod(Dbl(x, 32 - k));
    LemmaLowDbl(x, k, 32 - k);
  }

  lemma LemmaRotatedBit(x: uint32, k: nat, i: nat)
    requires 0 < k < 32 && i < 32
    requires Shr(x, k) < Pow2(32 - k)
    ensures Bit(Join(Low(x, k), Shr(x, k), 32 - k), i) == Bit(x, if i + k < 32 then i + k else i + k - 32)
  {
    var w := Join(Low(x, k), Shr(x, k), 32 - k);
    LemmaJoin(Low(x, k), Shr(x, k), 32 - k);
    if i < 32 - k {
      LemmaBitLow(w, i, 32 - k);
      LemmaShrAdd(x, k, i);
    } else {
      LemmaBitHigh(w, Low(x, k), 32 - k, i - (32 - k));
      LemmaBitLow(x, i - (32 - k), k);
    }
  }

  lemma LemmaBitHigh(w: nat, hi: nat, n: nat, j: nat)
    requires Shr(w, n) == hi
    ensures Bit(w, n + j) == Bit(hi, j)
  {
    LemmaShrAdd(w, n, j);
  }

  lemma {:induction false} LemmaBitLow(x: nat, i: nat, n: nat)
    requires i < n
    ensures Bit(Low(x, n), i) == Bit(x, i)
  {
    if i > 0 {
      LemmaBitLow(x / 2, i - 1, n - 1);
    }
  }

  lemma {:induction false} LemmaOrCommutes(a: nat, b: nat)
    ensures Or(a, b) == Or(b, a)
    decreases a + b
  {
    if a + b > 0 {
      LemmaOrCommutes(a / 2, b / 2);
    }
  }

  function Ssat(val: int32, sat: uint32): int32 {
    if 1 <= sat <= 32 then
      var max := I32(U32(Shl(1, sat - 1) - 1));
      var min := -1 - max;
      if val > max then max else if val < min then min else val
    else val
  }

  function Usat(val: int32, sat: uint32): uint32 {
    if sat <= 31 then
      var max := U32(Shl(1, sat) - 1);
      if val > I32(max) then max else if val < 0 then 0 else U32(val)
    else U32(val)
  }

  /** The closest value to `val` between `lo` and `hi`. */
  ghost predicate Closest(r: int, val: int, lo: int, hi: int) {
    && lo <= r <= hi
    && (r < val ==> r == hi)
    && (r > val ==> r == lo)
  }

  /** `__SSAT` returns the closest value that `sat` signed bits can hold, or `val` itself for a
      number of bits outside 1 to 32. */
  lemma SsatIsClosest(val: int32, sat: uint32)
    ensures if 1 <= sat <= 32 then Closest(Ssat(val, sat), val, 0 - Pow2(sat - 1), Pow2(sat - 1) - 1)
            else Ssat(val, sat) == val
  {
    if 1 <= sat <= 32 {
      LemmaMaxValue(sat - 1);
    }
  }

  /** `__USAT` returns the closest value that `sat` unsigned bits can hold, or the word `val` itself
      for more than 31. */
  lemma UsatIsClosest(val: int32, sat: uint32)
    ensures if sat <= 31 then Closest(Usat(val, sat), val, 0, Pow2(sat) - 1)
            else Usat(val, sat) == if val < 0 then val + W32 else val
  {
    if sat <= 31 {
      LemmaMaxValue(sat);
    }
    LemmaFits(val);
  }

  lemma LemmaMaxValue(n: nat)
    requires n <= 31
    ensures U32(Shl(1, n) - 1) == Pow2(n) - 1 && I32(Pow2(n) - 1) == Pow2(n) - 1
  {
    LemmaShlOne(n);
    LemmaFits(Pow2(n) - 1);
  }

  lemma LemmaShlOne(n: nat)
    requires n <= 31
    ensures Shl(1, n) == Pow2(n) <= H32
  {
    LemmaPow2Dbl(n);
    LemmaPow2Mono(n, 31);
    LemmaPow2Values();
    LemmaFits(Dbl(1, n));
  }
}
