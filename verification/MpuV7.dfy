/** The Armv7-M and Armv6-M memory protection unit and `ARM_MPU_Load`.

    A write of RBAR with VALID set selects the region it names and moves RNR to it; without
    VALID it goes to the region in RNR, as every write of RASR does. RBAR_A1/RASR_A1 to
    RBAR_A3/RASR_A3 are other addresses of the same two registers (Armv7-M Architecture
    Reference Manual, DDI 0403, entry for MPU_RBAR). */
module MpuV7 {
  import opened Words
  import opened BitOps

  /** A row of a configuration table. */
  datatype Row = Row(rbar: uint32, rasr: uint32)

  datatype Region = Region(base: nat, rasr: uint32)

  const REGIONS: nat := 16
  const VALID: uint32 := 0x10
  const REGION_MASK: uint32 := 0xF
  const ADDR_MASK: uint32 := 0xFFFF_FFE0

  /** RNR and the regions. */
  datatype State = State(rnr: nat, regions: seq<Region>)

  ghost predicate WellFormed(s: State) { s.rnr < REGIONS == |s.regions| }

  function PutRbar(s: State, value: uint32): (s': State)
    requires s.rnr < REGIONS == |s.regions|
    ensures s'.rnr < REGIONS == |s'.regions|
  {
    LemmaRegionField(value);
    var r := if And(value, VALID) != 0 then And(value, REGION_MASK) else s.rnr;
    State(r, s.regions[r := s.regions[r].(base := And(value, ADDR_MASK))])
  }

  function PutRasr(s: State, value: uint32): (s': State)
    requires s.rnr < REGIONS == |s.regions|
    ensures s'.rnr < REGIONS == |s'.regions|
  {
    s.(regions := s.regions[s.rnr := s.regions[s.rnr].(rasr := value)])
  }

  lemma LemmaRegionField(value: uint32)
    ensures And(value, REGION_MASK) == value % 16 < REGIONS
  {
    assert Pow2(4) == 16;
    LemmaAndMask(value, 4);
    LemmaLowRemainder(value, 4, 16);
  }

  /** `ARM_MPU_SetRegion`. */
  function SetRegion(s: State, row: Row): (s': State)
    requires s.rnr < REGIONS == |s.regions|
    ensures s'.rnr < REGIONS == |s'.regions|
  {
    PutRasr(PutRbar(s, row.rbar), row.rasr)
  }

  /** The simple form of a load: `ARM_MPU_SetRegion` for one row after another. */
  function SetAll(s: State, table: seq<Row>): (s': State)
    requires s.rnr < REGIONS == |s.regions|
    ensures s'.rnr < REGIONS == |s'.regions|
    decreases |table|
  {
    if table == [] then s else SetRegion(SetAll(s, table[..|table| - 1]), table[|table| - 1])
  }

  /** Loading one table and then another is loading their concatenation. */
  lemma {:induction false} LoadsCompose(s: State, a: seq<Row>, b: seq<Row>)
    requires WellFormed(s)
    ensures SetAll(s, a + b) == SetAll(SetAll(s, a), b)
    decreases |b|
  {
    if b == [] {
      assert a + b == a;
    } else {
      assert (a + b)[..|a + b| - 1] == a + b[..|b| - 1];
      LoadsCompose(s, a, b[..|b| - 1]);
    }
  }

  // ---- Rows made with ARM_MPU_RBAR ----------------------------------------------------------

  /** The macro `ARM_MPU_RBAR`. */
  function Rbar(region: uint32, baseAddress: uint32): nat {
    Or(Or(And(baseAddress, ADDR_MASK), And(region, REGION_MASK)), VALID)
  }

  lemma LemmaAddress(x: uint32)
    ensures And(x, ADDR_MASK) == x - x % 32 == Dbl(x / 32, 5)
  {
    assert Pow2(5) == 32;
    LemmaAndNotMask(x, 5);
    LemmaLowRemainder(x, 5, 32);
    LemmaDblMul(x / 32, 5);
  }

  /** The fields of a value made with the macro: it is valid, names the region modulo 16 and
      holds the address rounded down to 32 bytes. */
  lemma RbarFields(region: uint32, baseAddress: uint32)
    ensures Rbar(region, baseAddress) < W32
    ensures And(Rbar(region, baseAddress), VALID) != 0
    ensures And(Rbar(region, baseAddress), REGION_MASK) == region % 16
    ensures And(Rbar(region, baseAddress), ADDR_MASK) == baseAddress - baseAddress % 32
  {
    hide And, Or, Dbl;
    var q, r := baseAddress / 32, region % 16;
    LemmaAddress(baseAddress);
    LemmaRegionField(region);
    LemmaRbarJoin(q, r);
    var x: uint32 := 32 * q + 16 + r;
    LemmaPackedFields(x, q, r);
    LemmaValidBit(q, r);
  }

  lemma LemmaPackedFields(x: uint32, q: nat, r: nat)
    requires x == 32 * q + 16 + r && r < 16
    ensures And(x, REGION_MASK) == r && And(x, ADDR_MASK) == 32 * q
  {
    hide And, Dbl;
    LemmaAddress(x);
    LemmaRegionField(x);
    LemmaRemainder16(2 * q + 1, r);
    LemmaRemainder32(q, 16 + r);
  }

  lemma LemmaRemainder16(q: nat, r: nat)
    requires r < 16
    ensures (16 * q + r) % 16 == r
  {
  }

  lemma LemmaRemainder32(q: nat, r: nat)
    requires r < 32
    ensures (32 * q + r) % 32 == r
  {
  }

  lemma LemmaRbarJoin(q: nat, r: nat)
    requires r < 16
    ensures Or(Or(Dbl(q, 5), r), VALID) == 32 * q + 16 + r
  {
    assert Pow2(5) == 32 && Pow2(4) == 16;
    LemmaOrDisjoint(q, r, 5);
    LemmaZeroShr(5);
    LemmaOrJoin(q, r, 0, 16, 5);
    LemmaOrZero(q);
    LemmaOrCommutes(r, 16);
    assert Dbl(1, 4) == 16;
    LemmaOrDisjoint(1, r, 4);
    LemmaDblMul(q, 5);
  }

  lemma LemmaValidBit(q: nat, r: nat)
    requires r < 16
    ensures And(32 * q + 16 + r, VALID) != 0
  {
    assert Pow2(4) == 16;
    LemmaTestBit(32 * q + 16 + r, 4);
    LemmaShiftMeaning(32 * q + 16 + r, 4);
    assert (32 * q + 16 + r) / 16 == 2 * q + 1;
  }

  // ---- Which row a region ends up with ---------------------------------------------------------

  /** Bit 4 of RBAR. */
  predicate IsValid(row: Row) { row.rbar / 16 % 2 == 1 }

  /** The region selected after the first `n` rows: that of the last valid one, or `rnr`. */
  function Selected(rnr: nat, table: seq<Row>, n: nat): nat
    requires n <= |table|
  {
    if n == 0 then rnr
    else if IsValid(table[n - 1]) then table[n - 1].rbar % 16
    else Selected(rnr, table, n - 1)
  }

  predicate GoesTo(rnr: nat, table: seq<Row>, j: nat, r: nat)
    requires j < |table|
  {
    Selected(rnr, table, j + 1) == r
  }

  /** The last of the first `n` rows that goes to region `r`, or -1. */
  function LastRow(rnr: nat, table: seq<Row>, n: nat, r: nat): (i: int)
    requires n <= |table|
    ensures -1 <= i < n
    ensures i >= 0 ==> GoesTo(rnr, table, i, r)
    ensures forall j | i < j < n :: !GoesTo(rnr, table, j, r)
  {
    if n == 0 then -1 else if GoesTo(rnr, table, n - 1, r) then n - 1 else LastRow(rnr, table, n - 1, r)
  }

  /** After a load every region holds the last row that goes to it, its address rounded down to
      32 bytes, and a region that no row goes to is as it was. A row without VALID goes where the
      row before it went, the first one to the region in RNR. */
  lemma {:induction false} LastRowWins(s: State, table: seq<Row>, n: nat, r: nat)
    requires WellFormed(s) && n <= |table| && r < REGIONS
    ensures SetAll(s, table[..n]).rnr == Selected(s.rnr, table, n)
    ensures SetAll(s, table[..n]).regions[r] ==
              var i := LastRow(s.rnr, table, n, r);
              if i >= 0 then Region(table[i].rbar - table[i].rbar % 32, table[i].rasr) else s.regions[r]
  {
    hide SetRegion;
    if n > 0 {
      LastRowWins(s, table, n - 1, r);
      assert table[..n][..n - 1] == table[..n - 1];
      LemmaSetRegionAt(SetAll(s, table[..n - 1]), table[n - 1], r);
    }
  }

  lemma LemmaSetRegionAt(s: State, row: Row, r: nat)
    requires WellFormed(s) && r < REGIONS
    ensures SetRegion(s, row).rnr == if IsValid(row) then row.rbar % 16 else s.rnr
    ensures SetRegion(s, row).regions[r] ==
              if r == SetRegion(s, row).rnr then Region(row.rbar - row.rbar % 32, row.rasr) else s.regions[r]
  {
    hide And;
    LemmaAddress(row.rbar);
    LemmaRegionField(row.rbar);
    LemmaValid(row.rbar);
  }

  lemma LemmaValid(rbar: uint32)
    ensures And(rbar, VALID) != 0 <==> rbar / 16 % 2 == 1
  {
    assert Pow2(4) == 16;
    LemmaTestBit(rbar, 4);
    LemmaShiftMeaning(rbar, 4);
  }

  // ---- The registers -------------------------------------------------------------------------------

  class Mpu {
    /** MPU_TYPE_RALIASES. */
    const aliases: nat
    const regions: array<Region>
    var rnr: nat

    ghost predicate Valid()
      reads this
    {
      aliases >= 1 && regions.Length == REGIONS && rnr < REGIONS
    }

    ghost function Value(): State
      reads this, regions
    {
      State(rnr, regions[..])
    }

    constructor (aliases: nat, regions: array<Region>)
      requires aliases >= 1 && regions.Length == REGIONS
      ensures Valid() && this.aliases == aliases && this.regions == regions
    {
      this.aliases, this.regions, rnr := aliases, regions, 0;
    }

    method StoreRbar(value: uint32)
      requires Valid()
      modifies this`rnr, regions
      ensures Valid() && Value() == PutRbar(old(Value()), value)
    {
      LemmaRegionField(value);
      if And(value, VALID) != 0 {
        rnr := And(value, REGION_MASK);
      }
      regions[rnr] := regions[rnr].(base := And(value, ADDR_MASK));
    }

    method StoreRasr(value: uint32)
      requires Valid()
      modifies regions
      ensures Valid() && Value() == PutRasr(old(Value()), value)
    {
      regions[rnr] := regions[rnr].(rasr := value);
    }

    /** `ARM_MPU_SetRegion`. */
    method SetRegionRow(rbar: uint32, rasr: uint32)
      requires Valid()
      modifies this`rnr, regions
      ensures Valid() && Value() == SetRegion(old(Value()), Row(rbar, rasr))
    {
      hide PutRbar, PutRasr;
      StoreRbar(rbar);
      StoreRasr(rasr);
    }

    /** `ARM_MPU_ClrRegion`: disables one region and keeps its base. */
    method ClrRegion(region: uint32)
      requires Valid() && region < REGIONS
      modifies this`rnr, regions
      ensures Valid()
      ensures Value() == State(region, old(regions[..])[region := old(regions[region]).(rasr := 0)])
    {
      rnr := region;
      StoreRasr(0);
    }

    /** `orderedCpy` of the words of `rows` rows, from row `row` on, to the alias windows: even
        words are written to RBAR or an alias of it, odd words to RASR. */
    method OrderedCpy(table: seq<Row>, row: nat, rows: nat)
      requires Valid() && row + rows <= |table| && rows <= aliases
      modifies this`rnr, regions
      ensures Valid() && Value() == SetAll(old(Value()), table[row..row + rows])
    {
      hide PutRbar, PutRasr, SetAll, SetWords;
      LemmaNoWords(Value(), table[row..row + rows]);
      var i := 0;
      while i < 2 * rows
        invariant 0 <= i <= 2 * rows && Valid()
        invariant Value() == SetWords(old(Value()), table[row..row + rows], i)
      {
        LemmaSetWordsStep(old(Value()), table[row..row + rows], i);
        if i % 2 == 0 {
          StoreRbar(table[row + i / 2].rbar);
        } else {
          StoreRasr(table[row + i / 2].rasr);
        }
        i := i + 1;
      }
      LemmaAllWords(old(Value()), table[row..row + rows]);
    }

    /** `ARM_MPU_Load`. */
    method Load(table: seq<Row>, cnt: nat)
      requires Valid() && cnt <= |table|
      modifies this`rnr, regions
      ensures Valid() && Value() == SetAll(old(Value()), table[..cnt])
    {
      hide SetAll;
      LemmaNoRows(Value(), table);
      var next: nat, left: nat := 0, cnt;
      while left > aliases
        invariant Valid() && next + left == cnt
        invariant Value() == SetAll(old(Value()), table[..next])
        decreases left
      {
        OrderedCpy(table, next, aliases);
        LemmaMoreRows(old(Value()), table, next, aliases);
        next := next + aliases;
        left := left - aliases;
      }
      OrderedCpy(table, next, left);
      LemmaMoreRows(old(Value()), table, next, left);
    }
  }

  /** The state after the first `n` words of a table. */
  function SetWords(s: State, table: seq<Row>, n: nat): (s': State)
    requires s.rnr < REGIONS == |s.regions| && n <= 2 * |table|
    ensures s'.rnr < REGIONS == |s'.regions|
  {
    if n % 2 == 0 then SetAll(s, table[..n / 2]) else PutRbar(SetAll(s, table[..n / 2]), table[n / 2].rbar)
  }

  lemma LemmaNoRows(s: State, table: seq<Row>)
    requires WellFormed(s)
    ensures SetAll(s, table[..0]) == s
  {
  }

  lemma LemmaNoWords(s: State, table: seq<Row>)
    requires WellFormed(s)
    ensures SetWords(s, table, 0) == s
  {
  }

  lemma LemmaSetWordsStep(s: State, table: seq<Row>, n: nat)
    requires WellFormed(s) && n < 2 * |table|
    ensures SetWords(s, table, n + 1) == if n % 2 == 0 then PutRbar(SetWords(s, table, n), table[n / 2].rbar)
                                         else PutRasr(SetWords(s, table, n), table[n / 2].rasr)
  {
    var k := n / 2;
    if n % 2 == 1 {
      assert table[..k + 1][..k] == table[..k];
    }
  }

  lemma LemmaAllWords(s: State, table: seq<Row>)
    requires WellFormed(s)
    ensures SetWords(s, table, 2 * |table|) == SetAll(s, table)
  {
    assert table[..|table|] == table;
  }

  lemma LemmaMoreRows(s: State, table: seq<Row>, k: nat, n: nat)
    requires WellFormed(s) && k + n <= |table|
    ensures SetAll(SetAll(s, table[..k]), table[k..k + n]) == SetAll(s, table[..k + n])
  {
    assert table[..k] + table[k..k + n] == table[..k + n];
    LoadsCompose(s, table[..k], table[k..k + n]);
  }
}
