/** One 8259A in fully nested mode (Intel 8259A data sheet, "Fully Nested Mode",
    "End of Interrupt (EOI)" and "Cascade Mode"), with a history variable that
    remembers which acknowledgement set each in-service bit. */
module Pic8259 {

  /** A request input; 0 has the highest priority. */
  type Level = n: nat | n < 8

  const CASCADE: Level := 2
  const SPURIOUS: Level := 7

  /** `inService` maps each in-service bit to the acknowledgement that set it;
      the chip itself only knows the keys. */
  datatype Chip = Chip(requested: set<Level>, masked: set<Level>, inService: map<Level, nat>) {

    /** The unmasked requests of higher priority than everything in service. */
    function Eligible(): set<Level> {
      set p | p in requested && p !in masked && Above(p)
    }

    predicate Above(p: Level) {
      forall q | q in inService.Keys :: p < q
    }

    function Acknowledge(p: Level, id: nat): Chip {
      Chip(requested - {p}, masked, inService[p := id])
    }

    /** OCW2 = 20h: reset the highest-priority in-service bit, if there is one. */
    function NonSpecificEoi(): Chip {
      if inService == map[] then this else this.(inService := inService - {Victim()})
    }

    function Victim(): (r: Level)
      requires inService != map[]
      ensures r in inService && forall q | q in inService.Keys :: r <= q
    {
      Least(inService.Keys, 0)
    }

    /** What a non-specific EOI retires, as the acknowledgement it belonged to. */
    function Retires(): multiset<nat> {
      if inService == map[] then multiset{} else multiset{inService[Victim()]}
    }
  }

  const RESET := Chip({}, {}, map[])

  function Least(s: set<Level>, from: nat): (r: Level)
    requires s != {} && forall q | q in s :: from <= q
    ensures r in s && forall q | q in s :: r <= q
    decreases 8 - from
  {
    assert from < 8 by { var q :| q in s; }
    if from in s then from else Least(s, from + 1)
  }

  // ---- The in-service registers as the ports give them

  function Weight(on: bool, w: bv16): bv16 {
    if on then w else 0
  }

  /** One byte in a WORD, bit l for level l. */
  function ByteOf(s: set<Level>): bv16 {
    Weight(0 in s, 0x01) | Weight(1 in s, 0x02) | Weight(2 in s, 0x04) | Weight(3 in s, 0x08)
    | Weight(4 in s, 0x10) | Weight(5 in s, 0x20) | Weight(6 in s, 0x40) | Weight(7 in s, 0x80)
  }

  function Packed(low: bv16, high: bv16): bv16 {
    low | (high << 8)
  }

  // The dispatcher's tests on the packed WORD: a byte, or repaired its bit for level 7.
  predicate LowByteClear(w: bv16) { w & 0xFF == 0 }
  predicate HighByteClear(w: bv16) { w >> 8 == 0 }
  predicate Bit7Clear(w: bv16) { w & 0x80 == 0 }
  predicate Bit15Clear(w: bv16) { w & 0x8000 == 0 }

  /** What they say about the two chips. */
  lemma PackedDecodes(low: set<Level>, high: set<Level>)
    ensures var w := Packed(ByteOf(low), ByteOf(high));
            && (LowByteClear(w) <==> low == {}) && (HighByteClear(w) <==> high == {})
            && (Bit7Clear(w) <==> SPURIOUS !in low) && (Bit15Clear(w) <==> SPURIOUS !in high)
  {
    ByteZero(low);
    ByteZero(high);
    ByteTop(low);
    ByteTop(high);
    Unpack(ByteOf(low), ByteOf(high));
  }

  lemma Unpack(low: bv16, high: bv16)
    requires low <= 0xFF && high <= 0xFF
    ensures Packed(low, high) & 0xFF == low && Packed(low, high) >> 8 == high
    ensures Packed(low, high) & 0x80 == low & 0x80
    ensures Packed(low, high) & 0x8000 == 0 <==> high & 0x80 == 0
  {
  }

  lemma ByteZero(s: set<Level>)
    ensures ByteOf(s) <= 0xFF
    ensures ByteOf(s) == 0 <==> s == {}
  {
    BitsZero(0 in s, 1 in s, 2 in s, 3 in s, 4 in s, 5 in s, 6 in s, 7 in s);
    if l :| l in s { assert l in {0, 1, 2, 3, 4, 5, 6, 7}; }
  }

  lemma BitsZero(b0: bool, b1: bool, b2: bool, b3: bool, b4: bool, b5: bool, b6: bool, b7: bool)
    ensures var b := Weight(b0, 0x01) | Weight(b1, 0x02) | Weight(b2, 0x04) | Weight(b3, 0x08)
                     | Weight(b4, 0x10) | Weight(b5, 0x20) | Weight(b6, 0x40) | Weight(b7, 0x80);
            && b <= 0xFF
            && (b == 0 <==> !(b0 || b1 || b2 || b3 || b4 || b5 || b6 || b7))
            && (b & 0x80 == 0 <==> !b7)
  {
  }

  lemma ByteTop(s: set<Level>)
    ensures ByteOf(s) & 0x80 == 0 <==> SPURIOUS !in s
  {
    BitsZero(0 in s, 1 in s, 2 in s, 3 in s, 4 in s, 5 in s, 6 in s, 7 in s);
  }
}
