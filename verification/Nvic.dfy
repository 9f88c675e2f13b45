/** Interrupt priorities: how CMSIS packs a (preemption, sub-priority) pair into one value
    and stores it, either in a byte lane of a 32-bit register (Armv6-M, Armv8-M Baseline)
    or in a byte array (Armv8-M Mainline).

    `prioBits` is __NVIC_PRIO_BITS, the number of implemented priority bits. */
module Nvic {
  import opened Words

  // ---- Packing the pair --------------------------------------------------------------

  function Group(priorityGroup: uint32): nat { And(priorityGroup, 7) }

  function PreemptBits(prioBits: nat, priorityGroup: uint32): nat {
    var g := Group(priorityGroup);
    if U32(7 - g) > prioBits then prioBits else U32(7 - g)
  }

  function SubBits(prioBits: nat, priorityGroup: uint32): nat {
    var g := Group(priorityGroup);
    if g + prioBits < 7 then 0 else U32(U32(g - 7) + prioBits)
  }

  function Mask(bits: nat): uint32 { U32(Shl(1, bits) - 1) }

  function Encode(prioBits: nat, priorityGroup: uint32, preempt: uint32, sub: uint32): nat {
    var preemptBits, subBits := PreemptBits(prioBits, priorityGroup), SubBits(prioBits, priorityGroup);
    Or(Shl(And(preempt, Mask(preemptBits)), subBits), And(sub, Mask(subBits)))
  }

  datatype Pair = Pair(preempt: nat, sub: nat)

  function Decode(prioBits: nat, priority: nat, priorityGroup: uint32): Pair {
    var preemptBits, subBits := PreemptBits(prioBits, priorityGroup), SubBits(prioBits, priorityGroup);
    Pair(And(Shr(priority, subBits), Mask(preemptBits)), And(priority, Mask(subBits)))
  }

  /** `NVIC_DecodePriority`, which writes through its two out-pointers. */
  method DecodePriority(prioBits: nat, priority: uint32, priorityGroup: uint32) returns (preempt: nat, sub: nat)
    ensures Pair(preempt, sub) == Decode(prioBits, priority, priorityGroup)
  {
    var group := And(priorityGroup, 7);
    var preemptBits := if U32(7 - group) > prioBits then prioBits else U32(7 - group);
    var subBits := if group + prioBits < 7 then 0 else U32(U32(group - 7) + prioBits);
    preempt := And(Shr(priority, subBits), U32(Shl(1, preemptBits) - 1));
    sub := And(priority, U32(Shl(1, subBits) - 1));
  }

  lemma LemmaGroup(priorityGroup: uint32)
    ensures Group(priorityGroup) == priorityGroup % 8
  {
    assert Pow2(3) == 8;
    LemmaAndMask(priorityGroup, 3);
    LemmaLowRemainder(priorityGroup, 3, 8);
  }

  /** The two fields share the implemented bits: the sub-priority gets `group + prioBits - 7`
      of them, or none, and the preemption priority the rest. */
  lemma WidthsSum(prioBits: nat, priorityGroup: uint32)
    requires prioBits <= 8
    ensures PreemptBits(prioBits, priorityGroup) + SubBits(prioBits, priorityGroup) == prioBits
    ensures PreemptBits(prioBits, priorityGroup) <= 7
    ensures SubBits(prioBits, priorityGroup)
         == if priorityGroup % 8 + prioBits > 7 then priorityGroup % 8 + prioBits - 7 else 0
  {
    LemmaGroup(priorityGroup);
    var g := Group(priorityGroup);
    LemmaFits(7 - g);
    if g + prioBits >= 7 {
      LemmaGroupShift(g, prioBits);
    }
  }

  lemma LemmaGroupShift(g: nat, prioBits: nat)
    requires g <= 7 && prioBits <= 8 && g + prioBits >= 7
    ensures U32(U32(g - 7) + prioBits) == g + prioBits - 7
  {
    if g < 7 {
      assert U32(g - 7) == W32 + g - 7;
    }
    assert g < 7 ==> W32 + g - 7 + prioBits == W32 + (g + prioBits - 7);
  }

  lemma LemmaMask(bits: nat)
    requires bits <= 8
    ensures Mask(bits) == Pow2(bits) - 1
  {
    LemmaPow2Dbl(bits);
    LemmaSmallPow2(bits);
    LemmaFits(Dbl(1, bits));
    LemmaFits(Pow2(bits) - 1);
  }

  /** The packed value holds the two masked fields side by side within `prioBits` bits. */
  lemma LemmaEncode(prioBits: nat, priorityGroup: uint32, preempt: uint32, sub: uint32)
    requires prioBits <= 8
    ensures var p, s := PreemptBits(prioBits, priorityGroup), SubBits(prioBits, priorityGroup);
            Encode(prioBits, priorityGroup, preempt, sub) == Join(Low(preempt, p), Low(sub, s), s) < Pow2(prioBits)
  {
    var p, s := PreemptBits(prioBits, priorityGroup), SubBits(prioBits, priorityGroup);
    WidthsSum(prioBits, priorityGroup);
    LemmaMask(p);
    LemmaMask(s);
    LemmaAndMask(preempt, p);
    LemmaAndMask(sub, s);
    LemmaPackFields(Low(preempt, p), Low(sub, s), p, s) by {
      LemmaSplit(preempt, p);
      LemmaSplit(sub, s);
    }
  }

  lemma LemmaPackFields(a: nat, b: nat, p: nat, s: nat)
    requires a < Pow2(p) && b < Pow2(s) && p + s <= 8
    ensures Or(Shl(a, s), b) == Join(a, b, s) < Pow2(p + s)
  {
    LemmaJoinBound(a, b, p, s);
    LemmaSmallPow2(p + s);
    LemmaFits(Dbl(a, s));
    LemmaOrDisjoint(a, b, s);
  }

  lemma LemmaDecode(prioBits: nat, priority: nat, priorityGroup: uint32)
    requires prioBits <= 8
    ensures var p, s := PreemptBits(prioBits, priorityGroup), SubBits(prioBits, priorityGroup);
            Decode(prioBits, priority, priorityGroup) == Pair(Low(Shr(priority, s), p), Low(priority, s))
  {
    var p, s := PreemptBits(prioBits, priorityGroup), SubBits(prioBits, priorityGroup);
    WidthsSum(prioBits, priorityGroup);
    LemmaMask(p);
    LemmaMask(s);
    LemmaAndMask(Shr(priority, s), p);
    LemmaAndMask(priority, s);
  }

  /** The fields as arithmetic, for any values: the preemption priority modulo its width above the
      sub-priority modulo its width. */
  lemma PackedFields(prioBits: nat, priorityGroup: uint32, preempt: uint32, sub: uint32, priority: nat)
    requires prioBits <= 8
    ensures var p, s := Pow2(PreemptBits(prioBits, priorityGroup)), Pow2(SubBits(prioBits, priorityGroup));
            && Encode(prioBits, priorityGroup, preempt, sub) == preempt % p * s + sub % s
            && Decode(prioBits, priority, priorityGroup) == Pair(priority / s % p, priority % s)
  {
    hide And, Or, Shl, Encode, Decode, PreemptBits, SubBits;
    var p, s := PreemptBits(prioBits, priorityGroup), SubBits(prioBits, priorityGroup);
    LemmaEncode(prioBits, priorityGroup, preempt, sub);
    LemmaDecode(prioBits, priority, priorityGroup);
    LemmaShiftMeaning(preempt, p);
    LemmaShiftMeaning(sub, s);
    LemmaShiftMeaning(priority, s);
    LemmaShiftMeaning(priority / Pow2(s), p);
    LemmaShiftMeaning(preempt % Pow2(p), s);
  }

  /** The pair with each half cut down to its field. */
  function Masked(prioBits: nat, priorityGroup: uint32, preempt: uint32, sub: uint32): Pair {
    Pair(preempt % Pow2(PreemptBits(prioBits, priorityGroup)), sub % Pow2(SubBits(prioBits, priorityGroup)))
  }

  /** Decoding undoes encoding, up to the bits the fields cannot hold. */
  lemma DecodeEncode(prioBits: nat, priorityGroup: uint32, preempt: uint32, sub: uint32)
    requires prioBits <= 8
    ensures Decode(prioBits, Encode(prioBits, priorityGroup, preempt, sub), priorityGroup)
         == Masked(prioBits, priorityGroup, preempt, sub)
  {
    var p, s := PreemptBits(prioBits, priorityGroup), SubBits(prioBits, priorityGroup);
    var e := Encode(prioBits, priorityGroup, preempt, sub);
    LemmaEncode(prioBits, priorityGroup, preempt, sub);
    LemmaDecode(prioBits, e, priorityGroup);
    LemmaLowRemainder(preempt, p, Pow2(p));
    LemmaLowRemainder(sub, s, Pow2(s));
    LemmaSplit(sub, s);
    LemmaSplit(preempt, p);
    LemmaJoin(Low(preempt, p), Low(sub, s), s);
    LemmaLowId(Low(preempt, p), p);
  }

  /** Encoding undoes decoding, up to the unimplemented bits. */
  lemma EncodeDecode(prioBits: nat, priority: uint32, priorityGroup: uint32)
    requires prioBits <= 8
    ensures var d := Decode(prioBits, priority, priorityGroup);
            && d.preempt < W32 && d.sub < W32
            && Encode(prioBits, priorityGroup, d.preempt, d.sub) == priority % Pow2(prioBits)
  {
    hide And, Or, Shl;
    var p, s := PreemptBits(prioBits, priorityGroup), SubBits(prioBits, priorityGroup);
    var d := Decode(prioBits, priority, priorityGroup);
    WidthsSum(prioBits, priorityGroup);
    LemmaDecode(prioBits, priority, priorityGroup);
    LemmaSplit(Shr(priority, s), p);
    LemmaSplit(priority, s);
    LemmaSmallPow2(p);
    LemmaSmallPow2(s);
    LemmaEncode(prioBits, priorityGroup, d.preempt, d.sub);
    LemmaLowId(d.preempt, p);
    LemmaLowId(d.sub, s);
    LemmaLowJoin(priority, p, s);
    LemmaLowRemainder(priority, prioBits, Pow2(prioBits));
  }

  lemma LemmaSmallPow2(n: nat)
    requires n <= 8
    ensures Pow2(n) <= 0x100
  {
    assert Pow2(8) == 0x100;
    LemmaPow2Mono(n, 8);
  }

  /** The low p + s bits are the low s bits below the next p. */
  lemma {:induction false} LemmaLowJoin(x: nat, p: nat, s: nat)
    ensures Low(x, p + s) == Join(Low(Shr(x, s), p), Low(x, s), s)
  {
    if s > 0 {
      LemmaLowJoin(x / 2, p, s - 1);
    }
  }

  /** The order of the encoded values is the lexicographic order of the masked pairs, so the
      preemption priority decides first. */
  lemma EncodedOrder(prioBits: nat, priorityGroup: uint32, preempt: uint32, sub: uint32, preempt': uint32, sub': uint32)
    requires prioBits <= 8
    ensures var a, b := Masked(prioBits, priorityGroup, preempt, sub), Masked(prioBits, priorityGroup, preempt', sub');
            Encode(prioBits, priorityGroup, preempt, sub) < Encode(prioBits, priorityGroup, preempt', sub')
            <==> a.preempt < b.preempt || (a.preempt == b.preempt && a.sub < b.sub)
  {
    var p, s := PreemptBits(prioBits, priorityGroup), SubBits(prioBits, priorityGroup);
    LemmaEncode(prioBits, priorityGroup, preempt, sub);
    LemmaEncode(prioBits, priorityGroup, preempt', sub');
    LemmaLowRemainder(preempt, p, Pow2(p));
    LemmaLowRemainder(sub, s, Pow2(s));
    LemmaLowRemainder(preempt', p, Pow2(p));
    LemmaLowRemainder(sub', s, Pow2(s));
    LemmaSplit(sub, s);
    LemmaSplit(sub', s);
    LemmaJoinOrder(Low(preempt, p), Low(sub, s), Low(preempt', p), Low(sub', s), s);
  }

  // ---- The two register files ------------------------------------------------------------

  /** Four priorities to a word; `shpr` has the words of the system handlers -8 to -1. */
  datatype WordRegs = WordRegs(ipr: seq<uint32>, shpr: seq<uint32>)

  /** One priority to a byte; `shpr` has the bytes of the system handlers -12 to -1. */
  datatype ByteRegs = ByteRegs(ipr: seq<uint8>, shpr: seq<uint8>)

  /** The interrupt numbers that a word file with `n` words of interrupts has a lane for. */
  predicate HasLane(n: nat, irqn: int) { -8 <= irqn < 4 * n }

  function BitShift(irqn: int): nat { And(U32(irqn), 3) * 8 }
  function IpIndex(irqn: int): nat { Shr(U32(irqn), 2) }
  function ShpIndex(irqn: int): nat { Shr(U32(And(U32(irqn), 0xF) - 8), 2) }

  /** The priority as it is stored: in the high bits of a byte. */
  function Stored(prioBits: nat, priority: uint32): nat
    requires prioBits <= 8
  {
    And(Shl(priority, 8 - prioBits), 0xFF)
  }

  function WordUpdate(prioBits: nat, word: uint32, irqn: int, priority: uint32): nat
    requires prioBits <= 8
  {
    Or(And(word, Not(Shl(0xFF, BitShift(irqn)))), Shl(Stored(prioBits, priority), BitShift(irqn)))
  }

  /** The lane of an interrupt: its index in `ipr` or `shpr`, and its byte in that word. */
  lemma LemmaIndices(irqn: int)
    requires -8 <= irqn < H32
    ensures irqn >= 0 ==> IpIndex(irqn) == irqn / 4 && BitShift(irqn) == 8 * (irqn % 4)
    ensures irqn < 0 ==> ShpIndex(irqn) == (irqn + 8) / 4 && BitShift(irqn) == 8 * ((irqn + 8) % 4)
  {
    LemmaQuarter(U32(irqn));
    if irqn >= 0 {
      LemmaFits(irqn);
    } else {
      LemmaHandlerNibble(irqn);
      LemmaFits(irqn + 8);
      LemmaQuarter(irqn + 8);
      LemmaHandlerLane(irqn);
    }
  }

  lemma LemmaQuarter(x: uint32)
    ensures And(x, 3) == x % 4 && Shr(x, 2) == x / 4
  {
    assert Pow2(2) == 4;
    LemmaAndMask(x, 2);
    LemmaShiftMeaning(x, 2);
  }

  lemma LemmaHandlerLane(irqn: int)
    requires -16 <= irqn < 0
    ensures U32(irqn) % 4 == (irqn + 8) % 4
  {
    assert U32(irqn) == W32 + irqn;
    assert W32 + irqn == 4 * 0x4000_0000 + irqn;
  }

  lemma LemmaHandlerNibble(irqn: int)
    requires -16 <= irqn < 0
    ensures And(U32(irqn), 0xF) == irqn + 16
  {
    assert U32(irqn) == W32 + irqn;
    assert Pow2(4) == 16;
    LemmaAndMask(U32(irqn), 4);
    LemmaLowRemainder(U32(irqn), 4, 16);
  }

  lemma LemmaStored(prioBits: nat, priority: uint32)
    requires prioBits <= 8
    ensures Stored(prioBits, priority) == Dbl(Low(priority, prioBits), 8 - prioBits) < 0x100
  {
    assert Pow2(8) == 0x100;
    var n := 8 - prioBits;
    LemmaAndMask(Shl(priority, n), 8);
    LemmaLowMod(Dbl(priority, n));
    LemmaLowLow(Dbl(priority, n), 32, 8);
    LemmaLowDbl(priority, prioBits, n);
    LemmaSplit(Shl(priority, n), 8);
  }

  /** The stored byte as arithmetic: the implemented bits of the priority, moved to the top. */
  lemma StoredPlace(prioBits: nat, priority: uint32)
    requires prioBits <= 8
    ensures Stored(prioBits, priority) == priority % Pow2(prioBits) * Pow2(8 - prioBits)
  {
    LemmaStored(prioBits, priority);
    LemmaShiftMeaning(priority, prioBits);
    LemmaShiftMeaning(Low(priority, prioBits), 8 - prioBits);
  }

  function WordSet(prioBits: nat, r: WordRegs, irqn: int, priority: uint32): (r': WordRegs)
    requires prioBits <= 8 && |r.shpr| == 2 && |r.ipr| < H32 / 4 && HasLane(|r.ipr|, irqn)
    ensures |r'.ipr| == |r.ipr| && |r'.shpr| == 2
  {
    LemmaWordUpdate(prioBits, r, irqn, priority);
    if irqn >= 0 then
      r.(ipr := r.ipr[IpIndex(irqn) := WordUpdate(prioBits, r.ipr[IpIndex(irqn)], irqn, priority)])
    else
      r.(shpr := r.shpr[ShpIndex(irqn) := WordUpdate(prioBits, r.shpr[ShpIndex(irqn)], irqn, priority)])
  }

  function WordGet(prioBits: nat, r: WordRegs, irqn: int): nat
    requires prioBits <= 8 && |r.shpr| == 2 && |r.ipr| < H32 / 4 && HasLane(|r.ipr|, irqn)
  {
    LemmaIndices(irqn);
    var word := if irqn >= 0 then r.ipr[IpIndex(irqn)] else r.shpr[ShpIndex(irqn)];
    Shr(And(Shr(word, BitShift(irqn)), 0xFF), 8 - prioBits)
  }

  function ByteSet(prioBits: nat, r: ByteRegs, irqn: int, priority: uint32): (r': ByteRegs)
    requires prioBits <= 8 && |r.shpr| == 12 && |r.ipr| < H32 && -12 <= irqn < |r.ipr|
    ensures |r'.ipr| == |r.ipr| && |r'.shpr| == 12
  {
    LemmaByteIndex(irqn);
    LemmaStored(prioBits, priority);
    if irqn >= 0 then r.(ipr := r.ipr[U32(irqn) := Stored(prioBits, priority)])
    else r.(shpr := r.shpr[U32(And(U32(irqn), 0xF) - 4) := Stored(prioBits, priority)])
  }

  function ByteGet(prioBits: nat, r: ByteRegs, irqn: int): nat
    requires prioBits <= 8 && |r.shpr| == 12 && |r.ipr| < H32 && -12 <= irqn < |r.ipr|
  {
    LemmaByteIndex(irqn);
    var byte := if irqn >= 0 then r.ipr[U32(irqn)] else r.shpr[U32(And(U32(irqn), 0xF) - 4)];
    Shr(byte, 8 - prioBits)
  }

  lemma LemmaByteIndex(irqn: int)
    requires -12 <= irqn < H32
    ensures irqn >= 0 ==> U32(irqn) == irqn
    ensures irqn < 0 ==> U32(And(U32(irqn), 0xF) - 4) == irqn + 12
  {
    if irqn >= 0 {
      LemmaFits(irqn);
    } else {
      LemmaHandlerNibble(irqn);
      LemmaFits(irqn + 12);
    }
  }

  /** The stored byte of interrupt `irqn` in either file. */
  function WordLane(r: WordRegs, irqn: int): uint8
    requires |r.shpr| == 2 && HasLane(|r.ipr|, irqn)
  {
    if irqn >= 0 then Lane(r.ipr[irqn / 4], irqn % 4) else Lane(r.shpr[(irqn + 8) / 4], (irqn + 8) % 4)
  }

  function ByteLane(r: ByteRegs, irqn: int): uint8
    requires |r.shpr| == 12 && -12 <= irqn < |r.ipr|
  {
    if irqn >= 0 then r.ipr[irqn] else r.shpr[irqn + 12]
  }

  lemma LemmaWordUpdate(prioBits: nat, r: WordRegs, irqn: int, priority: uint32)
    requires prioBits <= 8 && |r.shpr| == 2 && |r.ipr| < H32 / 4 && HasLane(|r.ipr|, irqn)
    ensures irqn >= 0 ==> IpIndex(irqn) == irqn / 4 < |r.ipr|
    ensures irqn < 0 ==> ShpIndex(irqn) == (irqn + 8) / 4 < 2
    ensures Stored(prioBits, priority) < 0x100
    ensures forall word: uint32 {:trigger WordUpdate(prioBits, word, irqn, priority)} ::
              && WordUpdate(prioBits, word, irqn, priority) < W32
              && WordUpdate(prioBits, word, irqn, priority)
              == WithLane(word, if irqn >= 0 then irqn % 4 else (irqn + 8) % 4, Stored(prioBits, priority))
  {
    LemmaIndices(irqn);
    LemmaStored(prioBits, priority);
    var k := if irqn >= 0 then irqn % 4 else (irqn + 8) % 4;
    forall word: uint32
      ensures WordUpdate(prioBits, word, irqn, priority) < W32
      ensures WordUpdate(prioBits, word, irqn, priority) == WithLane(word, k, Stored(prioBits, priority))
    {
      LemmaInsertByte(word, k, Stored(prioBits, priority));
    }
  }

  /** Setting one priority writes its lane and touches no other interrupt's lane. */
  lemma WordSetLanes(prioBits: nat, r: WordRegs, irqn: int, priority: uint32, other: int)
    requires prioBits <= 8 && |r.shpr| == 2 && |r.ipr| < H32 / 4
    requires HasLane(|r.ipr|, irqn) && HasLane(|r.ipr|, other)
    ensures WordLane(WordSet(prioBits, r, irqn, priority), other)
         == if other == irqn then Stored(prioBits, priority) else WordLane(r, other)
    ensures Stored(prioBits, priority) == priority % Pow2(prioBits) * Pow2(8 - prioBits)
  {
    StoredPlace(prioBits, priority);
    LemmaWordUpdate(prioBits, r, irqn, priority);
    var b := Stored(prioBits, priority);
    if irqn >= 0 {
      LemmaLanes(r.ipr[irqn / 4], irqn % 4, b, other % 4);
    } else {
      LemmaLanes(r.shpr[(irqn + 8) / 4], (irqn + 8) % 4, b, (other + 8) % 4);
    }
  }

  lemma ByteSetLanes(prioBits: nat, r: ByteRegs, irqn: int, priority: uint32, other: int)
    requires prioBits <= 8 && |r.shpr| == 12 && |r.ipr| < H32
    requires -12 <= irqn < |r.ipr| && -12 <= other < |r.ipr|
    ensures ByteLane(ByteSet(prioBits, r, irqn, priority), other)
         == if other == irqn then Stored(prioBits, priority) else ByteLane(r, other)
    ensures Stored(prioBits, priority) == priority % Pow2(prioBits) * Pow2(8 - prioBits)
  {
    StoredPlace(prioBits, priority);
    LemmaByteIndex(irqn);
  }

  /** The byte array's get returns the byte of its interrupt, moved down, for all system handlers. */
  lemma ByteGetLane(prioBits: nat, r: ByteRegs, irqn: int)
    requires prioBits <= 8 && |r.shpr| == 12 && |r.ipr| < H32 && -12 <= irqn < |r.ipr|
    ensures ByteGet(prioBits, r, irqn) == ByteLane(r, irqn) / Pow2(8 - prioBits)
  {
    LemmaByteIndex(irqn);
    LemmaShiftMeaning(ByteLane(r, irqn), 8 - prioBits);
  }

  lemma WordGetLane(prioBits: nat, r: WordRegs, irqn: int)
    requires prioBits <= 8 && |r.shpr| == 2 && |r.ipr| < H32 / 4 && HasLane(|r.ipr|, irqn)
    ensures WordGet(prioBits, r, irqn) == Shr(WordLane(r, irqn), 8 - prioBits)
    ensures WordGet(prioBits, r, irqn) == WordLane(r, irqn) / Pow2(8 - prioBits)
  {
    LemmaShiftMeaning(WordLane(r, irqn), 8 - prioBits);
    LemmaIndices(irqn);
    if irqn >= 0 {
      LemmaReadByte(r.ipr[irqn / 4], irqn % 4);
    } else {
      LemmaReadByte(r.shpr[(irqn + 8) / 4], (irqn + 8) % 4);
    }
  }

  lemma LemmaStoredRead(prioBits: nat, priority: uint32)
    requires prioBits <= 8
    ensures Shr(Stored(prioBits, priority), 8 - prioBits) == priority % Pow2(prioBits)
  {
    LemmaStored(prioBits, priority);
    LemmaJoin(Low(priority, prioBits), 0, 8 - prioBits);
    LemmaLowRemainder(priority, prioBits, Pow2(prioBits));
  }

  // ---- Runs of NVIC_SetPriority ----------------------------------------------------------------

  datatype Call = Call(irqn: int, priority: uint32)

  /** The files hold the same byte for every interrupt the word file knows. */
  ghost predicate SameLanes(w: WordRegs, b: ByteRegs) {
    && |w.shpr| == 2 && |b.shpr| == 12 && |b.ipr| == 4 * |w.ipr| && |b.ipr| < H32
    && forall irqn | HasLane(|w.ipr|, irqn) :: WordLane(w, irqn) == ByteLane(b, irqn)
  }

  ghost predicate CallsFit(n: nat, calls: seq<Call>) {
    n < H32 / 4 && forall i | 0 <= i < |calls| :: HasLane(n, calls[i].irqn)
  }

  ghost function WordRun(prioBits: nat, r: WordRegs, calls: seq<Call>): (r': WordRegs)
    requires prioBits <= 8 && |r.shpr| == 2 && CallsFit(|r.ipr|, calls)
    ensures |r'.ipr| == |r.ipr| && |r'.shpr| == 2
    decreases |calls|
  {
    if calls == [] then r
    else
      var last := calls[|calls| - 1];
      WordSet(prioBits, WordRun(prioBits, r, calls[..|calls| - 1]), last.irqn, last.priority)
  }

  ghost function ByteRun(prioBits: nat, r: ByteRegs, calls: seq<Call>): (r': ByteRegs)
    requires prioBits <= 8 && |r.shpr| == 12 && |r.ipr| % 4 == 0 && CallsFit(|r.ipr| / 4, calls)
    ensures |r'.ipr| == |r.ipr| && |r'.shpr| == 12
    decreases |calls|
  {
    if calls == [] then r
    else
      var last := calls[|calls| - 1];
      ByteSet(prioBits, ByteRun(prioBits, r, calls[..|calls| - 1]), last.irqn, last.priority)
  }

  /** Refinement: after any sequence of NVIC_SetPriority calls the word-packed registers hold
      the priorities of the byte array, and NVIC_GetPriority returns the same from both. */
  lemma {:induction false} WordsRefineBytes(prioBits: nat, w: WordRegs, b: ByteRegs, calls: seq<Call>, irqn: int)
    requires prioBits <= 8 && SameLanes(w, b) && CallsFit(|w.ipr|, calls) && HasLane(|w.ipr|, irqn)
    ensures SameLanes(WordRun(prioBits, w, calls), ByteRun(prioBits, b, calls))
    ensures WordGet(prioBits, WordRun(prioBits, w, calls), irqn) == ByteGet(prioBits, ByteRun(prioBits, b, calls), irqn)
    decreases |calls|
  {
    if calls != [] {
      var last := calls[|calls| - 1];
      WordsRefineBytes(prioBits, w, b, calls[..|calls| - 1], irqn);
      LemmaSetSameLanes(prioBits, WordRun(prioBits, w, calls[..|calls| - 1]),
                        ByteRun(prioBits, b, calls[..|calls| - 1]), last);
    }
    LemmaSameGet(prioBits, WordRun(prioBits, w, calls), ByteRun(prioBits, b, calls), irqn);
  }

  lemma LemmaSameGet(prioBits: nat, w: WordRegs, b: ByteRegs, irqn: int)
    requires prioBits <= 8 && SameLanes(w, b) && |w.ipr| < H32 / 4 && HasLane(|w.ipr|, irqn)
    ensures WordGet(prioBits, w, irqn) == ByteGet(prioBits, b, irqn)
  {
    WordGetLane(prioBits, w, irqn);
    LemmaByteIndex(irqn);
    assert WordLane(w, irqn) == ByteLane(b, irqn);
  }

  lemma LemmaSetSameLanes(prioBits: nat, w: WordRegs, b: ByteRegs, call: Call)
    requires prioBits <= 8 && SameLanes(w, b) && |w.ipr| < H32 / 4 && HasLane(|w.ipr|, call.irqn)
    ensures SameLanes(WordSet(prioBits, w, call.irqn, call.priority), ByteSet(prioBits, b, call.irqn, call.priority))
  {
    forall other | HasLane(|w.ipr|, other)
      ensures WordLane(WordSet(prioBits, w, call.irqn, call.priority), other)
           == ByteLane(ByteSet(prioBits, b, call.irqn, call.priority), other)
    {
      WordSetLanes(prioBits, w, call.irqn, call.priority, other);
      ByteSetLanes(prioBits, b, call.irqn, call.priority, other);
    }
  }

  /** The last call for `irqn`, or -1. */
  function LastCall(calls: seq<Call>, irqn: int): (i: int)
    ensures -1 <= i < |calls|
    ensures i >= 0 ==> calls[i].irqn == irqn
    ensures forall j | i < j < |calls| :: calls[j].irqn != irqn
  {
    if calls == [] then -1
    else if calls[|calls| - 1].irqn == irqn then |calls| - 1
    else LastCall(calls[..|calls| - 1], irqn)
  }

  /** What NVIC_GetPriority returns after any run: the implemented bits of the last priority
      set for that interrupt, or what it returned before the run. */
  lemma {:induction false} GetAfterRun(prioBits: nat, r: WordRegs, calls: seq<Call>, irqn: int)
    requires prioBits <= 8 && |r.shpr| == 2 && CallsFit(|r.ipr|, calls) && HasLane(|r.ipr|, irqn)
    ensures WordGet(prioBits, WordRun(prioBits, r, calls), irqn)
         == if LastCall(calls, irqn) >= 0 then calls[LastCall(calls, irqn)].priority % Pow2(prioBits)
            else WordGet(prioBits, r, irqn)
    decreases |calls|
  {
    if calls != [] {
      var last, front := calls[|calls| - 1], calls[..|calls| - 1];
      var before, after := WordRun(prioBits, r, front), WordRun(prioBits, r, calls);
      GetAfterRun(prioBits, r, front, irqn);
      WordGetLane(prioBits, before, irqn);
      WordGetLane(prioBits, after, irqn);
      WordSetLanes(prioBits, before, last.irqn, last.priority, irqn);
      LemmaStoredRead(prioBits, last.priority);
    }
  }

  /** Encode, set, get, decode: the masked pair comes back. */
  lemma PriorityRoundTrip(prioBits: nat, r: WordRegs, irqn: int, priorityGroup: uint32, preempt: uint32, sub: uint32)
    requires prioBits <= 8 && |r.shpr| == 2 && |r.ipr| < H32 / 4 && HasLane(|r.ipr|, irqn)
    ensures var e := Encode(prioBits, priorityGroup, preempt, sub);
            && e < W32
            && Decode(prioBits, WordGet(prioBits, WordSet(prioBits, r, irqn, e), irqn), priorityGroup)
            == Masked(prioBits, priorityGroup, preempt, sub)
  {
    var e := Encode(prioBits, priorityGroup, preempt, sub);
    LemmaEncode(prioBits, priorityGroup, preempt, sub);
    LemmaSmallPow2(prioBits);
    WordSetLanes(prioBits, r, irqn, e, irqn);
    WordGetLane(prioBits, WordSet(prioBits, r, irqn, e), irqn);
    LemmaStoredRead(prioBits, e);
    LemmaLowRemainder(e, prioBits, Pow2(prioBits));
    LemmaLowId(e, prioBits);
    DecodeEncode(prioBits, priorityGroup, preempt, sub);
  }

  // ---- The registers ------------------------------------------------------------------------------

  /** NVIC and SCB with word-accessible priorities: 8 words on the Cortex-M0, 124 on Armv8-M Baseline. */
  class WordNvic {
    const prioBits: nat
    const ipr: array<uint32>
    const shpr: array<uint32>

    ghost predicate Valid() { prioBits <= 8 && shpr.Length == 2 && ipr.Length < H32 / 4 && ipr != shpr }

    ghost function Value(): WordRegs
      reads ipr, shpr
    {
      WordRegs(ipr[..], shpr[..])
    }

    constructor (prioBits: nat, ipr: array<uint32>, shpr: array<uint32>)
      requires prioBits <= 8 && shpr.Length == 2 && ipr.Length < H32 / 4 && ipr != shpr
      ensures Valid() && this.prioBits == prioBits && this.ipr == ipr && this.shpr == shpr
    {
      this.prioBits, this.ipr, this.shpr := prioBits, ipr, shpr;
    }

    method SetPriority(irqn: int, priority: uint32)
      requires Valid() && HasLane(ipr.Length, irqn)
      modifies ipr, shpr
      ensures Value() == WordSet(prioBits, old(Value()), irqn, priority)
    {
      LemmaWordUpdate(prioBits, Value(), irqn, priority);
      if irqn >= 0 {
        var i := IpIndex(irqn);
        ipr[i] := WordUpdate(prioBits, ipr[i], irqn, priority);
      } else {
        var i := ShpIndex(irqn);
        shpr[i] := WordUpdate(prioBits, shpr[i], irqn, priority);
      }
    }

    method GetPriority(irqn: int) returns (priority: nat)
      requires Valid() && HasLane(ipr.Length, irqn)
      ensures priority == WordGet(prioBits, Value(), irqn)
    {
      LemmaIndices(irqn);
      if irqn >= 0 {
        priority := Shr(And(Shr(ipr[IpIndex(irqn)], BitShift(irqn)), 0xFF), 8 - prioBits);
      } else {
        priority := Shr(And(Shr(shpr[ShpIndex(irqn)], BitShift(irqn)), 0xFF), 8 - prioBits);
      }
    }
  }

  /** NVIC and SCB with byte-accessible priorities, as on Armv8-M Mainline. */
  class ByteNvic {
    const prioBits: nat
    const ipr: array<uint8>
    const shpr: array<uint8>

    ghost predicate Valid() { prioBits <= 8 && shpr.Length == 12 && ipr.Length < H32 && ipr != shpr }

    ghost function Value(): ByteRegs
      reads ipr, shpr
    {
      ByteRegs(ipr[..], shpr[..])
    }

    constructor (prioBits: nat, ipr: array<uint8>, shpr: array<uint8>)
      requires prioBits <= 8 && shpr.Length == 12 && ipr.Length < H32 && ipr != shpr
      ensures Valid() && this.prioBits == prioBits && this.ipr == ipr && this.shpr == shpr
    {
      this.prioBits, this.ipr, this.shpr := prioBits, ipr, shpr;
    }

    method SetPriority(irqn: int, priority: uint32)
      requires Valid() && -12 <= irqn < ipr.Length
      modifies ipr, shpr
      ensures Value() == ByteSet(prioBits, old(Value()), irqn, priority)
    {
      LemmaByteIndex(irqn);
      LemmaStored(prioBits, priority);
      if irqn >= 0 {
        ipr[U32(irqn)] := Stored(prioBits, priority);
      } else {
        shpr[U32(And(U32(irqn), 0xF) - 4)] := Stored(prioBits, priority);
      }
    }

    method GetPriority(irqn: int) returns (priority: nat)
      requires Valid() && -12 <= irqn < ipr.Length
      ensures priority == ByteGet(prioBits, Value(), irqn)
    {
      LemmaByteIndex(irqn);
      if irqn >= 0 {
        priority := Shr(ipr[U32(irqn)], 8 - prioBits);
      } else {
        priority := Shr(shpr[U32(And(U32(irqn), 0xF) - 4)], 8 - prioBits);
      }
    }
  }
}
