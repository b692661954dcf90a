/** Rounding an address up: AddrAlign on a DWORD, and the loader's instructions on a
    pair of 16-bit registers. */
module BootAlign {
  import opened Text
  import opened Basics

  const PAGE := 4096

  /** The least multiple of the page size that is not below `a`. */
  function PageUp(a: nat): (r: nat)
    ensures a <= r < a + PAGE && r % PAGE == 0
  {
    (a + PAGE - 1) / PAGE * PAGE
  }

  function Pair(high: Word, low: Word): Dword {
    high * 0x1_0000 + low
  }

  /** Line 205 carries out of the low half. */
  predicate Carries(low: Word) {
    low + (PAGE - 1) >= 0x1_0000
  }

  /** By how much the load offset misses when the high halves are subtracted first. */
  function Skew(v: Version, high: Word, low: Word): nat {
    if v == Repaired || !Carries(low) then 0
    else if high < 0xFFFF then 0x1_0000
    else 0xFFFF
  }

  /** ExtAllocSuccess: from the EMB's address in DX:BX, the page-aligned kernel address
      and the offset into the EMB at which to load. As written `sub` takes the high
      halves before `sbb` takes the low ones. */
  method AlignKernel(v: Version, dx: Word, bx: Word) returns (kernelAddr: Dword, offset: Dword)
    ensures kernelAddr == PageUp(Pair(dx, bx)) % 0x1_0000_0000
    ensures offset == Gap(dx, bx) + Skew(v, dx, bx)
    ensures offset == Gap(dx, bx) <==> v == Repaired || bx <= 0xF000
    ensures v == AsWritten && bx > 0xF000 ==> offset == Gap(dx, bx) + if dx < 0xFFFF then 0x1_0000 else 0xFFFF
  {
    var ax: int, cx: int := bx, dx;
    var cf := if ax + 4095 >= 0x1_0000 then 1 else 0;
    ax := ax + 4095 - cf * 0x1_0000;
    cx := if cx + cf == 0x1_0000 then 0 else cx + cf;
    ax := ax - ax % 4096;
    kernelAddr := cx * 0x1_0000 + ax;
    Halves(dx, bx);
    GapOfLow(dx, bx);
    assert ax == if Carries(bx) then 0 else bx + Gap(dx, bx);
    if v == AsWritten {
      cf := if cx < dx then 1 else 0;
      cx := Minus(cx, dx);
      ax := Minus(ax, bx + cf);
    } else {
      cf := if ax < bx then 1 else 0;
      ax := Minus(ax, bx);
      cx := Minus(cx, dx + cf);
    }
    offset := cx * 0x1_0000 + ax;
  }

  /** Subtraction in a 16-bit register. */
  function Minus(a: Word, b: nat): Word
    requires b <= 0x1_0000
  {
    if a >= b then a - b else a - b + 0x1_0000
  }

  /** The distance from the EMB to the next page. */
  function Gap(dx: Word, bx: Word): (g: nat)
    ensures g < PAGE
  {
    PageUp(Pair(dx, bx)) - Pair(dx, bx)
  }

  lemma GapOfLow(dx: Word, bx: Word)
    ensures !Carries(bx) ==> bx + Gap(dx, bx) == bx + 4095 - (bx + 4095) % 4096
    ensures Carries(bx) ==> bx + Gap(dx, bx) == 0x1_0000
  {
    Halves(dx, bx);
  }

  /** Rounding the pair up is rounding the low half up, with its carry. */
  lemma Halves(dx: Word, bx: Word)
    ensures PageUp(Pair(dx, bx)) ==
            if Carries(bx) then (dx + 1) * 0x1_0000 else dx * 0x1_0000 + (bx + 4095 - (bx + 4095) % 4096)
  {
    var low := bx + 4095;
    assert (dx * 0x1_0000 + low) / 4096 == dx * 16 + low / 4096;
  }

  // ---- AddrAlign

  function AddrAlign(addr: bv32, bound: bv32): bv32 {
    (addr + bound - 1) & !(bound - 1)
  }

  predicate PowerOfTwo(b: bv32) {
    b != 0 && b & (b - 1) == 0
  }

  predicate Multiple(a: bv32, mask: bv32) {
    a & mask == 0
  }

  predicate AtMost(a: bv32, b: bv32) {
    a <= b
  }

  predicate LowBits(mask: bv32) {
    mask & (mask + 1) == 0
  }

  /** The low bits filled and one added. */
  function Next(addr: bv32, mask: bv32): bv32 {
    (addr | mask) + 1
  }

  function RoundedUp(addr: bv32, mask: bv32): bv32 {
    if Multiple(addr, mask) then addr else Next(addr, mask)
  }

  /** For a power of two AddrAlign gives a multiple of it, and up to the last multiple, above
      which the addition wraps, that is the least one not below the address. */
  lemma AddrAlignIsLeast(addr: bv32, bound: bv32, m: bv32)
    requires PowerOfTwo(bound) && Multiple(m, bound - 1)
    ensures Multiple(AddrAlign(addr, bound), bound - 1)
    ensures AtMost(addr, LastMultiple(bound)) ==> AtMost(addr, AddrAlign(addr, bound))
    ensures AtMost(addr, m) ==> AtMost(AddrAlign(addr, bound), m)
  {
    AlignRoundsUp(addr, bound);
    RoundedIsMultiple(addr, bound - 1);
    if AtMost(addr, LastMultiple(bound)) { RoundedNotBelow(addr, bound - 1); }
    if AtMost(addr, m) { RoundedAtMost(addr, bound - 1, m); }
  }

  function LastMultiple(bound: bv32): bv32 {
    !(bound - 1)
  }

  /** It is 2^32 less the bound. */
  lemma LastMultipleExact(bound: bv32)
    ensures LastMultiple(bound) == 0xFFFF_FFFF - (bound - 1)
  {
  }

  lemma AlignRoundsUp(addr: bv32, bound: bv32)
    requires PowerOfTwo(bound)
    ensures LowBits(bound - 1) && AddrAlign(addr, bound) == RoundedUp(addr, bound - 1)
  {
    BelowPower(bound);
    SameSum(addr, bound);
    MultipleStays(addr, bound - 1);
    OtherMovesUp(addr, bound - 1);
  }

  lemma RoundedIsMultiple(addr: bv32, mask: bv32)
    requires LowBits(mask)
    ensures Multiple(RoundedUp(addr, mask), mask)
  {
    if !Multiple(addr, mask) { NextIsMultiple(addr, mask); }
  }

  lemma RoundedNotBelow(addr: bv32, mask: bv32)
    requires LowBits(mask) && AtMost(addr, !mask)
    ensures AtMost(addr, RoundedUp(addr, mask))
  {
    if Multiple(addr, mask) { AtMostItself(addr); } else { NextNotBelow(addr, mask); }
  }

  lemma RoundedAtMost(addr: bv32, mask: bv32, m: bv32)
    requires LowBits(mask) && Multiple(m, mask) && AtMost(addr, m)
    ensures AtMost(RoundedUp(addr, mask), m)
  {
    if !Multiple(addr, mask) { NextAtMost(addr, mask, m); }
  }

  // The facts about single bits that this rests on.

  lemma BelowPower(bound: bv32)
    ensures bound & (bound - 1) == 0 ==> (bound - 1) & ((bound - 1) + 1) == 0
  {
  }

  lemma SameSum(addr: bv32, bound: bv32)
    ensures (addr + bound - 1) & !(bound - 1) == (addr + (bound - 1)) & !(bound - 1)
  {
  }

  lemma MultipleStays(addr: bv32, mask: bv32)
    ensures mask & (mask + 1) == 0 && addr & mask == 0 ==> (addr + mask) & !mask == addr
  {
  }

  lemma OtherMovesUp(addr: bv32, mask: bv32)
    ensures mask & (mask + 1) == 0 && addr & mask != 0 ==> (addr + mask) & !mask == (addr | mask) + 1
  {
  }

  lemma NextIsMultiple(addr: bv32, mask: bv32)
    requires LowBits(mask)
    ensures Multiple(Next(addr, mask), mask)
  {
  }

  lemma NextNotBelow(addr: bv32, mask: bv32)
    requires LowBits(mask) && !Multiple(addr, mask) && AtMost(addr, !mask)
    ensures AtMost(addr, Next(addr, mask))
  {
  }

  lemma NextAtMost(addr: bv32, mask: bv32, m: bv32)
    ensures LowBits(mask) && !Multiple(addr, mask) && Multiple(m, mask) && AtMost(addr, m) ==> AtMost(Next(addr, mask), m)
  {
  }

  lemma AtMostItself(a: bv32)
    ensures AtMost(a, a)
  {
  }

  // ---- The same on a register pair

  function Joined(high: bv16, low: bv16): bv32 {
    ((high as bv32) << 16) | (low as bv32)
  }

  /** The loader's add, adc and and. */
  function AlignedPair(high: bv16, low: bv16): (bv16, bv16) {
    var sum := low + 4095;
    (if sum < low then high + 1 else high, sum & !4095)
  }

  /** The pair of 16-bit registers computes what AddrAlign computes on the DWORD. */
  lemma PairIsAddrAlign(high: bv16, low: bv16)
    ensures var (h, l) := AlignedPair(high, low);
            Joined(h, l) == AddrAlign(Joined(high, low), 4096)
  {
    AlignedHalves(high, low, AlignedPair(high, low).0, low + 4095);
  }

  lemma AlignedHalves(high: bv16, low: bv16, h: bv16, sum: bv16)
    requires sum == low + 4095 && h == if sum < low then high + 1 else high
    ensures Joined(h, sum & !4095) == (Joined(high, low) + 4095) & !4095
  {
    AddWithCarry(high, low, h, sum);
    MaskLowHalf(h, sum);
  }

  lemma AddWithCarry(high: bv16, low: bv16, h: bv16, sum: bv16)
    requires sum == low + 4095 && h == if sum < low then high + 1 else high
    ensures Joined(h, sum) == Joined(high, low) + 4095
  {
  }

  lemma MaskLowHalf(high: bv16, low: bv16)
    ensures Joined(high, low & !4095) == Joined(high, low) & !4095
  {
  }
}
