/** The Armv8-M memory protection unit and the CMSIS functions that program it.

    A region is programmed by writing its number to RNR and its two words to RBAR and
    RLAR. An implementation with four alias windows maps RBAR_A1/RLAR_A1 to RBAR_A3/RLAR_A3
    on the other regions of the aligned group of four that RNR selects (Armv8-M Architecture
    Reference Manual, DDI 0553, entries for MPU_RNR, MPU_RBAR_An and MPU_RLAR_An). */
module MpuV8 {
  import opened Words

  /** A row of a configuration table, and the contents of one region. */
  datatype Row = Row(rbar: uint32, rlar: uint32)

  /** A word that reaches the region file. */
  datatype Write = BaseWrite(region: nat, value: uint32) | LimitWrite(region: nat, value: uint32)

  /** The region that a write to word `offset` from RBAR addresses: plain RBAR/RLAR go to the
      region in RNR, alias n to region n of the aligned group of four. */
  function RegionOf(rnr: uint32, offset: nat): nat {
    var n := offset / 2;
    if n == 0 then rnr % 0x100 else rnr % 0x100 / 4 * 4 + n
  }

  /** What a store of `value` to word `offset` does to the region file. */
  function StoredWrite(rnr: uint32, offset: nat, value: uint32): Write {
    if offset % 2 == 0 then BaseWrite(RegionOf(rnr, offset), value) else LimitWrite(RegionOf(rnr, offset), value)
  }

  // ---- Write sequences ------------------------------------------------------------------

  function ApplyOne(regs: seq<Row>, w: Write): (r: seq<Row>)
    ensures |r| == |regs|
  {
    if w.region >= |regs| then regs
    else
      match w
      case BaseWrite(i, v) => regs[i := regs[i].(rbar := v)]
      case LimitWrite(i, v) => regs[i := regs[i].(rlar := v)]
  }

  /** The writes made so far, in order. */
  datatype Log = Start | Then(before: Log, last: Write)

  /** The region file that a log leaves behind. */
  function Apply(regs: seq<Row>, log: Log): (r: seq<Row>)
    ensures |r| == |regs|
  {
    match log
    case Start => regs
    case Then(before, last) => ApplyOne(Apply(regs, before), last)
  }

  function TableWord(table: seq<Row>, i: nat): uint32
    requires i < 2 * |table|
  {
    if i % 2 == 0 then table[i / 2].rbar else table[i / 2].rlar
  }

  /** Word `i` of a table, as a write to the regions from `first` on. */
  function WordWrite(first: nat, table: seq<Row>, i: nat): Write
    requires i < 2 * |table|
  {
    if i % 2 == 0 then BaseWrite(first + i / 2, TableWord(table, i)) else LimitWrite(first + i / 2, TableWord(table, i))
  }

  /** `log` followed by words `from` to `from + n - 1` of a table, in ascending order, base
      before limit. */
  function Logged(log: Log, first: nat, table: seq<Row>, from: nat, n: nat): Log
    requires from + n <= 2 * |table|
  {
    if n == 0 then log else Then(Logged(log, first, table, from, n - 1), WordWrite(first, table, from + n - 1))
  }

  lemma LemmaLoggedNone(log: Log, first: nat, table: seq<Row>)
    ensures Logged(log, first, table, 0, 0) == log
  {
  }

  lemma LemmaLoggedStep(log: Log, first: nat, table: seq<Row>, from: nat, i: nat)
    requires from + i < 2 * |table|
    ensures Logged(log, first, table, from, i + 1)
         == Then(Logged(log, first, table, from, i), WordWrite(first, table, from + i))
  {
  }

  lemma {:induction false} LemmaLoggedMore(log: Log, first: nat, table: seq<Row>, m: nat, n: nat)
    requires m + n <= 2 * |table|
    ensures Logged(Logged(log, first, table, 0, m), first, table, m, n) == Logged(log, first, table, 0, m + n)
  {
    if n > 0 {
      LemmaLoggedMore(log, first, table, m, n - 1);
    }
  }

  lemma LemmaMoreRows(before: Log, log: Log, log': Log, first: nat, table: seq<Row>, k: nat, n: nat)
    requires k + n <= |table|
    requires log == Logged(before, first, table, 0, 2 * k) && log' == Logged(log, first, table, 2 * k, 2 * n)
    ensures log' == Logged(before, first, table, 0, 2 * (k + n))
  {
    LemmaLoggedMore(before, first, table, 2 * k, 2 * n);
  }

  /** Region `r` after the first `n` words of a load: the row of the table if both of its
      words are in, the new base and the old limit if one is, and what it was otherwise. */
  function RegionAfter(regs: seq<Row>, first: nat, table: seq<Row>, n: nat, r: nat): Row
    requires n <= 2 * |table| && r < |regs|
  {
    if first <= r && 2 * (r - first) + 2 <= n then table[r - first]
    else if first <= r && 2 * (r - first) + 1 == n then Row(table[r - first].rbar, regs[r].rlar)
    else regs[r]
  }

  /** At every intermediate word of a load only the regions `first` to `first + |table| - 1`
      have changed, and they have changed in ascending order. */
  lemma {:induction false} EveryPrefixOfALoad(regs: seq<Row>, log: Log, first: nat, table: seq<Row>, n: nat, r: nat)
    requires n <= 2 * |table| && first + |table| <= |regs| && r < |regs|
    ensures Apply(regs, Logged(log, first, table, 0, n))[r] == RegionAfter(Apply(regs, log), first, table, n, r)
  {
    if n > 0 {
      EveryPrefixOfALoad(regs, log, first, table, n - 1, r);
      LemmaWordLands(Apply(regs, Logged(log, first, table, 0, n - 1)), first, table, n - 1, r);
    }
  }

  /** Where word `i` of a table lands. */
  lemma LemmaWordLands(regs: seq<Row>, first: nat, table: seq<Row>, i: nat, r: nat)
    requires i < 2 * |table| && first + |table| <= |regs| && r < |regs|
    ensures ApplyOne(regs, WordWrite(first, table, i))[r] ==
              if first <= r && i == 2 * (r - first) then regs[r].(rbar := table[r - first].rbar)
              else if first <= r && i == 2 * (r - first) + 1 then regs[r].(rlar := table[r - first].rlar)
              else regs[r]
  {
    assert i == 2 * (i / 2) + i % 2;
  }

  /** The simple form: the rows of the table in place of the regions they are for. */
  function Spliced(regs: seq<Row>, first: nat, table: seq<Row>): seq<Row>
    requires first + |table| <= |regs|
  {
    regs[..first] + table + regs[first + |table|..]
  }

  /** One `ARM_MPU_SetRegion` after another. */
  function SetEach(regs: seq<Row>, first: nat, table: seq<Row>): (r: seq<Row>)
    requires first + |table| <= |regs|
    ensures |r| == |regs|
    decreases |table|
  {
    if table == [] then regs
    else SetEach(regs, first, table[..|table| - 1])[first + |table| - 1 := table[|table| - 1]]
  }

  lemma {:induction false} SplicedIsSetEach(regs: seq<Row>, first: nat, table: seq<Row>)
    requires first + |table| <= |regs|
    ensures Spliced(regs, first, table) == SetEach(regs, first, table)
    decreases |table|
  {
    if table != [] {
      SplicedIsSetEach(regs, first, table[..|table| - 1]);
    }
  }

  /** Loading two tables that follow each other writes the same words in the same order as
      loading their concatenation, and so leaves the same region file. */
  lemma LoadsCompose(regs: seq<Row>, log: Log, first: nat, a: seq<Row>, b: seq<Row>)
    requires first + |a| + |b| <= |regs|
    ensures Logged(Logged(log, first, a, 0, 2 * |a|), first + |a|, b, 0, 2 * |b|)
         == Logged(log, first, a + b, 0, 2 * |a + b|)
    ensures Spliced(Spliced(regs, first, a), first + |a|, b) == Spliced(regs, first, a + b)
  {
    hide WordWrite;
    LemmaLoggedHead(log, first, a, b, 2 * |a|);
    LemmaLoggedTail(Logged(log, first, a, 0, 2 * |a|), first, a, b, 2 * |b|);
    LemmaLoggedMore(log, first, a + b, 2 * |a|, 2 * |b|);
  }

  lemma {:induction false} LemmaLoggedHead(log: Log, first: nat, a: seq<Row>, b: seq<Row>, n: nat)
    requires n <= 2 * |a|
    ensures Logged(log, first, a + b, 0, n) == Logged(log, first, a, 0, n)
  {
    if n > 0 {
      LemmaLoggedHead(log, first, a, b, n - 1);
    }
  }

  lemma {:induction false} LemmaLoggedTail(log: Log, first: nat, a: seq<Row>, b: seq<Row>, n: nat)
    requires n <= 2 * |b|
    ensures Logged(log, first, a + b, 2 * |a|, n) == Logged(log, first + |a|, b, 0, n)
  {
    if n > 0 {
      LemmaLoggedTail(log, first, a, b, n - 1);
      LemmaWordOfTail(first, a, b, n - 1);
    }
  }

  lemma LemmaWordOfTail(first: nat, a: seq<Row>, b: seq<Row>, i: nat)
    requires i < 2 * |b|
    ensures WordWrite(first, a + b, 2 * |a| + i) == WordWrite(first + |a|, b, i)
  {
    assert (2 * |a| + i) / 2 == |a| + i / 2 && (2 * |a| + i) % 2 == i % 2;
  }

  // ---- Memory attributes -----------------------------------------------------------------

  /** Attribute `idx` of the MAIR registers. */
  function MemAttr(mair: seq<uint32>, idx: nat): uint8
    requires |mair| == 2 && idx < 8
  {
    Lane(mair[idx / 4], idx % 4)
  }

  lemma LemmaAttrWord(word: uint32, k: nat, attr: uint8)
    requires k < 4
    ensures Or(And(word, Not(Shl(0xFF, 8 * k))), And(Shl(attr, 8 * k), Shl(0xFF, 8 * k))) == WithLane(word, k, attr)
    ensures WithLane(word, k, attr) < W32
  {
    LemmaShlByte(k, attr);
    LemmaShlByte(k, 0xFF);
    LemmaAndWord(if k == 0 then attr else 0, if k == 1 then attr else 0, if k == 2 then attr else 0,
                 if k == 3 then attr else 0,
                 if k == 0 then 0xFF else 0, if k == 1 then 0xFF else 0, if k == 2 then 0xFF else 0,
                 if k == 3 then 0xFF else 0);
    LemmaAndFull(attr);
    LemmaAndFull(0);
    LemmaInsertByte(word, k, attr);
  }

  // ---- The registers ------------------------------------------------------------------------

  class Mpu {
    /** MPU_TYPE_RALIASES: 1 on Armv8-M Baseline, 4 on Mainline. */
    const aliases: nat
    const regions: array<Row>
    const mair: array<uint32>
    var rnr: uint32

    /** The region file at reset, and every word written to it since. */
    ghost const initial: seq<Row>
    ghost var log: Log

    ghost predicate Valid()
      reads this, regions
    {
      && (aliases == 1 || aliases == 4) && regions.Length <= 0x100 && mair.Length == 2
      && regions[..] == Apply(initial, log)
    }

    constructor (aliases: nat, regions: array<Row>, mair: array<uint32>)
      requires (aliases == 1 || aliases == 4) && regions.Length <= 0x100 && mair.Length == 2
      ensures Valid() && log == Start
      ensures this.aliases == aliases && this.regions == regions && this.mair == mair
    {
      this.aliases, this.regions, this.mair := aliases, regions, mair;
      rnr, log, initial := 0, Start, regions[..];
    }

    /** A store to the word `offset` of the alias windows. */
    method Store(offset: nat, value: uint32)
      requires Valid() && offset < 2 * aliases && RegionOf(rnr, offset) < regions.Length
      modifies regions, this`log
      ensures Valid()
      ensures log == Then(old(log), StoredWrite(rnr, offset, value))
    {
      var i := RegionOf(rnr, offset);
      ghost var w := StoredWrite(rnr, offset, value);
      if offset % 2 == 0 {
        regions[i] := regions[i].(rbar := value);
      } else {
        regions[i] := regions[i].(rlar := value);
      }
      log := Then(log, w);
    }

    /** `orderedCpy` of `len` words, from row `row` of `table` on, to word `dst` of the alias
        windows: it stays inside the windows and keeps the order. */
    method OrderedCpy(dst: nat, table: seq<Row>, row: nat, len: nat, ghost first: nat)
      requires Valid() && dst + len <= 2 * aliases && 2 * row + len <= 2 * |table|
      requires CopyFits(rnr, dst, first + row, len, regions.Length)
      modifies regions, this`log
      ensures Valid() && log == Logged(old(log), first, table, 2 * row, len)
    {
      hide Apply, WordWrite, RegionOf, StoredWrite;
      var i := 0;
      while i < len
        invariant 0 <= i <= len && Valid()
        invariant log == Logged(old(log), first, table, 2 * row, i)
      {
        LemmaCopyReaches(rnr, dst, first, table, row, len, regions.Length, i);
        LemmaLoggedStep(old(log), first, table, 2 * row, i);
        Store(dst + i, TableWord(table, 2 * row + i));
        i := i + 1;
      }
    }

    /** `ARM_MPU_LoadEx`: `cnt` regions from number `first` on, window by window. */
    method LoadEx(first: uint32, table: seq<Row>, cnt: nat)
      requires Valid() && cnt <= |table| && first + cnt <= regions.Length
      modifies regions, this`rnr, this`log
      ensures Valid()
      ensures log == Logged(old(log), first, table, 0, 2 * cnt)
      ensures regions[..] == Spliced(old(regions[..]), first, table[..cnt])
      ensures rnr == if cnt == 1 then first else if cnt == 0 then Aligned(first, aliases)
                     else Aligned(first + cnt - 1, aliases)
    {
      ghost var before := log;
      if cnt == 1 {
        rnr := first;
        OrderedCpy(0, table, 0, 2, first);
      } else {
        LoadWindows(first, table, cnt);
      }
      LemmaLoadResult(initial, before, first, table, cnt);
    }

    /** The aligned window of a region, and its place there. */
    method WindowOf(first: uint32) returns (rnrBase: uint32, rnrOffset: nat)
      requires aliases == 1 || aliases == 4
      ensures InWindow(rnrBase, rnrOffset, first, aliases)
    {
      LemmaWindowBase(first, aliases);
      rnrBase := And(first, Not(aliases - 1));
      rnrOffset := first % aliases;
    }

    /** `c` rows, from row `next` on, into the window that RNR has selected. */
    method CopyRows(rnrOffset: nat, table: seq<Row>, next: nat, c: nat, ghost first: nat, ghost before: Log)
      requires Valid() && next + c <= |table| && log == Logged(before, first, table, 0, 2 * next)
      requires InWindow(rnr, rnrOffset, first + next, aliases) && rnrOffset + c <= aliases
      requires first + next + c <= regions.Length
      modifies regions, this`log
      ensures Valid() && log == Logged(before, first, table, 0, 2 * (next + c))
    {
      LemmaWindowFits(rnr, rnrOffset, first + next, aliases, c, regions.Length);
      ghost var sofar := log;
      OrderedCpy(2 * rnrOffset, table, next, 2 * c, first);
      LemmaMoreRows(before, sofar, log, first, table, next, c);
    }

    /** The branch of `ARM_MPU_LoadEx` for any number of regions but one. */
    method LoadWindows(first: uint32, table: seq<Row>, cnt: nat)
      requires Valid() && cnt <= |table| && first + cnt <= regions.Length
      modifies regions, this`rnr, this`log
      ensures Valid() && log == Logged(old(log), first, table, 0, 2 * cnt)
      ensures rnr == if cnt == 0 then Aligned(first, aliases) else Aligned(first + cnt - 1, aliases)
    {
      hide Apply, Logged, Aligned;
      LemmaLoggedNone(log, first, table);
      var rnrBase, rnrOffset := WindowOf(first);
      var next: nat, left: nat := 0, cnt;

      rnr := rnrBase;
      while rnrOffset + left > aliases
        invariant Valid() && rnr == rnrBase && next + left == cnt && (cnt > 0 ==> left > 0)
        invariant InWindow(rnrBase, rnrOffset, first + next, aliases)
        invariant log == Logged(old(log), first, table, 0, 2 * next)
        decreases left
      {
        var c := aliases - rnrOffset;
        CopyRows(rnrOffset, table, next, c, first, old(log));
        LemmaNextWindow(rnrBase, rnrOffset, first + next, aliases);
        next := next + c;
        left := left - c;
        rnrOffset := 0;
        rnrBase := rnrBase + aliases;
        rnr := rnrBase;
      }

      CopyRows(rnrOffset, table, next, left, first, old(log));
      LemmaFinalWindow(rnrBase, rnrOffset, first + next, left, aliases);
    }

    /** `ARM_MPU_SetRegionEx`. */
    method SetRegionEx(region: uint32, rbar: uint32, rlar: uint32)
      requires Valid() && region < regions.Length
      modifies regions, this`rnr, this`log
      ensures Valid() && rnr == region
      ensures log == Then(Then(old(log), BaseWrite(region, rbar)), LimitWrite(region, rlar))
      ensures regions[..] == old(regions[..])[region := Row(rbar, rlar)]
    {
      rnr := region;
      Store(0, rbar);
      Store(1, rlar);
    }

    /** `ARM_MPU_ClrRegionEx`: the region is disabled, its base stays. */
    method ClrRegionEx(region: uint32)
      requires Valid() && region < regions.Length
      modifies regions, this`rnr, this`log
      ensures Valid() && rnr == region
      ensures regions[..] == old(regions[..])[region := old(regions[region]).(rlar := 0)]
    {
      rnr := region;
      Store(1, 0);
    }

    /** `ARM_MPU_SetMemAttrEx`: sets one of the eight attributes and leaves the other seven;
        an index past the registers changes nothing. */
    method SetMemAttrEx(idx: uint8, attr: uint8)
      requires Valid()
      modifies mair
      ensures idx >= 8 ==> mair[..] == old(mair[..])
      ensures forall i | 0 <= i < 8 :: MemAttr(mair[..], i) == if i == idx then attr else old(MemAttr(mair[..], i))
    {
      var reg := idx / 4;
      var pos := idx % 4 * 8;
      var mask := Shl(0xFF, pos);
      if reg >= 2 {
        return;
      }
      ghost var was := mair[..];
      LemmaAttrWord(mair[reg], idx % 4, attr);
      mair[reg] := Or(And(mair[reg], Not(mask)), And(Shl(attr, pos), mask));
      forall i | 0 <= i < 8 ensures MemAttr(mair[..], i) == if i == idx then attr else MemAttr(was, i) {
        LemmaLanes(was[reg], idx % 4, attr, i % 4);
      }
    }
  }

  // ---- Window arithmetic -----------------------------------------------------------------------

  function Aligned(region: nat, aliases: nat): nat { if aliases == 4 then region / 4 * 4 else region }

  /** `region` is number `offset` of the window that starts at `base`. */
  ghost predicate InWindow(base: nat, offset: int, region: nat, aliases: nat) {
    0 <= offset < aliases && base + offset == region && base == Aligned(base, aliases)
  }

  lemma LemmaWindowBase(first: uint32, aliases: nat)
    requires aliases == 1 || aliases == 4
    ensures And(first, Not(aliases - 1)) == Aligned(first, aliases)
    ensures InWindow(Aligned(first, aliases), first % aliases, first, aliases)
  {
    var n := if aliases == 1 then 0 else 2;
    assert Pow2(0) == 1 && Pow2(2) == 4;
    LemmaAndNotMask(first, n);
    LemmaLowRemainder(first, n, aliases);
  }

  /** `len` words from `offset` on, for the regions from `region` on: either a whole number of
      rows in an aligned window, or one row through RBAR and RLAR themselves. */
  ghost predicate CopyFits(rnr: uint32, offset: nat, region: nat, len: nat, count: nat) {
    len > 0 ==>
      && rnr < 0x100 && offset % 2 == 0 && rnr + offset / 2 == region && region + (len + 1) / 2 <= count
      && ((rnr % 4 == 0 && offset + len <= 8) || (offset == 0 && len <= 2))
  }

  /** Word `i` of a copy stays in the windows and reaches the region its row is for. */
  lemma LemmaCopyReaches(rnr: uint32, offset: nat, first: nat, table: seq<Row>, row: nat, len: nat, count: nat, i: nat)
    requires CopyFits(rnr, offset, first + row, len, count) && i < len && 2 * row + len <= 2 * |table|
    ensures RegionOf(rnr, offset + i) < count
    ensures StoredWrite(rnr, offset + i, TableWord(table, 2 * row + i)) == WordWrite(first, table, 2 * row + i)
  {
    assert (offset + i) / 2 == offset / 2 + i / 2 && (offset + i) % 2 == i % 2;
    assert (2 * row + i) / 2 == row + i / 2 && (2 * row + i) % 2 == i % 2;
  }

  lemma LemmaWindowFits(base: uint32, offset: nat, region: nat, aliases: nat, c: nat, count: nat)
    requires (aliases == 1 || aliases == 4) && InWindow(base, offset, region, aliases)
    requires offset + c <= aliases && region + c <= count <= 0x100
    ensures CopyFits(base, 2 * offset, region, 2 * c, count)
  {
  }

  lemma LemmaNextWindow(base: nat, offset: nat, region: nat, aliases: nat)
    requires (aliases == 1 || aliases == 4) && InWindow(base, offset, region, aliases)
    ensures InWindow(base + aliases, 0, region + (aliases - offset), aliases)
  {
  }

  lemma LemmaFinalWindow(base: nat, offset: nat, region: nat, left: nat, aliases: nat)
    requires (aliases == 1 || aliases == 4) && InWindow(base, offset, region, aliases) && offset + left <= aliases
    ensures left > 0 ==> base == Aligned(region + left - 1, aliases)
    ensures base == Aligned(region, aliases)
  {
  }

  lemma LemmaLoadResult(regs: seq<Row>, log: Log, first: nat, table: seq<Row>, cnt: nat)
    requires cnt <= |table| && first + cnt <= |regs|
    ensures Apply(regs, Logged(log, first, table, 0, 2 * cnt)) == Spliced(Apply(regs, log), first, table[..cnt])
  {
    var result, rows := Apply(regs, Logged(log, first, table, 0, 2 * cnt)), table[..cnt];
    LemmaSameWords(log, first, table, cnt, 2 * cnt);
    forall r | 0 <= r < |regs| ensures result[r] == Spliced(Apply(regs, log), first, rows)[r] {
      EveryPrefixOfALoad(regs, log, first, rows, 2 * cnt, r);
    }
  }

  lemma {:induction false} LemmaSameWords(log: Log, first: nat, table: seq<Row>, n: nat, k: nat)
    requires n <= |table| && k <= 2 * n
    ensures Logged(log, first, table[..n], 0, k) == Logged(log, first, table, 0, k)
  {
    if k > 0 {
      LemmaSameWords(log, first, table, n, k - 1);
      assert table[..n][(k - 1) / 2] == table[(k - 1) / 2];
    }
  }
}
