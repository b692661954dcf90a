/** From a request line to the number InMasterDispatch receives: the PICs' vector bases,
    the interrupt descriptor table and the sixteen low stubs. */
module Idt {
  import opened Text
  import opened Basics

  const IRQ_BASE: Byte := 0x20
  const NON_SYSTEM_VECTORS: Byte := 0x31
  const EXCEPT_IMPLEMENTED := 15
  const GDT_KCODE: Word := 1

  // ---- Initialisation of the PICs

  /** How far one 8259A has got in its initialisation sequence, and what it was told. */
  datatype Pic = Pic(words: nat, base: Byte, cascade: Byte, mode: Byte) {

    /** A command-port write with bit 4 set starts the sequence. */
    function Command(b: Byte): Pic {
      if (b / 16) % 2 == 1 then Pic(1, 0, 0, 0) else this
    }

    /** Data-port writes are ICW2, ICW3 and ICW4 in turn. */
    function Data(b: Byte): Pic {
      match words
      case 1 => Pic(2, b, cascade, mode)
      case 2 => Pic(3, base, b, mode)
      case 3 => Pic(4, base, cascade, b)
      case _ => this
    }

    /** Bits 3 to 7 of the vector are ICW2's, bits 0 to 2 the level. */
    function Vector(level: nat): nat
      requires level < 8
    {
      base / 8 * 8 + level
    }
  }

  class PicPair {
    var master: Pic
    var slave: Pic

    method Outb(port: nat, b: Byte)
      modifies this
      ensures master == if port == 0x20 then old(master).Command(b)
                        else if port == 0x21 then old(master).Data(b) else old(master)
      ensures slave == if port == 0xA0 then old(slave).Command(b)
                       else if port == 0xA1 then old(slave).Data(b) else old(slave)
    {
      if port == 0x20 { master := master.Command(b); }
      else if port == 0x21 { master := master.Data(b); }
      else if port == 0xA0 { slave := slave.Command(b); }
      else if port == 0xA1 { slave := slave.Data(b); }
    }

    /** PIC_Remap: both chips end initialised whatever they held, IRQ n at vector 20h + n,
        and the slave's identity is the master input it is wired to. */
    method PicRemap()
      modifies this
      ensures master == Pic(4, IRQ_BASE, 4, 1) && slave == Pic(4, IRQ_BASE + 8, 2, 9)
    {
      Outb(0x20, 0x11); Outb(0xA0, 0x11);
      Outb(0x21, IRQ_BASE); Outb(0xA1, IRQ_BASE + 8);
      Outb(0x21, 4); Outb(0xA1, 2);
      Outb(0x21, 1); Outb(0xA1, 9);
    }
  }

  // ---- The descriptor table

  datatype Gate = Gate(offset15to0: Word, selector: Word, zero: Byte, attr: Byte, offset31to16: Word) {
    predicate Present() { attr >= 0x80 }

    /** An interrupt gate of the 80386 for ring 0, through which the processor clears IF
        (Intel 80386 Programmer's Reference Manual, sections 9.5 and 9.6.1). */
    predicate ClearsIf() { attr % 0x20 == 14 && attr / 0x20 % 4 == 0 }

    function Address(): Dword { offset31to16 * 0x1_0000 + offset15to0 }
  }

  /** The type nibble that both gate macros use. */
  const PRESENT_INT386: Byte := 0x8E

  function GateTo(attr: Byte, address: Dword): Gate {
    Gate(address % 0x1_0000, GDT_KCODE * 8, 0, attr, address / 0x1_0000)
  }

  /** A present gate to nothing. */
  const REFLECTION := GateTo(PRESENT_INT386, 0)

  /** A gate decodes to the address that was put in it. */
  lemma GateRoundTrip(attr: Byte, address: Dword)
    ensures GateTo(attr, address).Address() == address
    ensures GateTo(attr, address).attr == attr && GateTo(attr, address).selector == 8
    ensures GateTo(PRESENT_INT386, address).Present() && GateTo(PRESENT_INT386, address).ClearsIf()
  {
  }

  /** Where the code's entry points are. */
  datatype Entries = Entries(exceptions: seq<Dword>, low: seq<Dword>) {
    predicate Valid() {
      |exceptions| == EXCEPT_IMPLEMENTED && |low| == 16 && forall i, j | 0 <= i < j < 16 :: low[i] != low[j]
    }
  }

  /** The table FillIDT makes out of `before`; as written, all sixteen stubs go to the
      first vector. */
  function Filled(v: Version, e: Entries, before: seq<Gate>): (after: seq<Gate>)
    requires e.Valid() && |before| == 256
    ensures |after| == 256
  {
    seq(256, n requires 0 <= n < 256 =>
      if n < EXCEPT_IMPLEMENTED then GateTo(PRESENT_INT386, e.exceptions[n])
      else if v == Repaired && IRQ_BASE <= n < IRQ_BASE + 16 then GateTo(PRESENT_INT386, e.low[n - IRQ_BASE])
      else if v == AsWritten && n == IRQ_BASE then GateTo(PRESENT_INT386, e.low[15])
      else before[n])
  }

  /** The first vector past the reflection gates; as written, 256 - 31h. */
  function ReflectionEnd(v: Version): nat {
    if v == AsWritten then 256 - NON_SYSTEM_VECTORS else 256
  }

  /** The table with every non-system vector pointing to nothing important. */
  function Reflected(v: Version, before: seq<Gate>): (after: seq<Gate>)
    requires |before| == 256
    ensures |after| == 256
  {
    var end := ReflectionEnd(v);
    seq(256, n requires 0 <= n < 256 => if NON_SYSTEM_VECTORS <= n < end then REFLECTION else before[n])
  }

  /** Exception, IRQ and reflection gates never overwrite each other: no vector is written
      by both routines, they give one table in either order, and each range has its own gates. */
  lemma GatesApart(v: Version, e: Entries, before: seq<Gate>, n: nat)
    requires e.Valid() && |before| == 256 && n < 256
    ensures Reflected(v, Filled(v, e, before)) == Filled(v, e, Reflected(v, before))
    ensures Filled(v, e, before)[n] == before[n] || Reflected(v, before)[n] == before[n]
    ensures n < EXCEPT_IMPLEMENTED ==>
              Reflected(v, Filled(v, e, before))[n] == GateTo(PRESENT_INT386, e.exceptions[n])
    ensures v == Repaired && IRQ_BASE <= n < IRQ_BASE + 16 ==>
              Reflected(v, Filled(v, e, before))[n] == GateTo(PRESENT_INT386, e.low[n - IRQ_BASE])
    ensures v == Repaired && n >= NON_SYSTEM_VECTORS ==> Reflected(v, Filled(v, e, before))[n] == REFLECTION
    ensures v == AsWritten && 0x31 <= n < 207 ==> Reflected(v, before)[n] == REFLECTION
    ensures v == AsWritten && n >= 207 ==> Reflected(v, before)[n] == before[n]
  {
    assert Reflected(v, Filled(v, e, before)) == Filled(v, e, Reflected(v, before));
  }

  class Table {
    const gates: array<Gate>

    constructor (init: Gate)
      ensures gates.Length == 256 && fresh(gates)
      ensures forall n | 0 <= n < 256 :: gates[n] == init
    {
      gates := new Gate[256](_ => init);
    }

    method SetIntVector(vector: Byte, attr: Byte, address: Dword)
      requires gates.Length == 256
      modifies gates
      ensures gates[..] == old(gates[..])[vector := GateTo(attr, address)]
    {
      gates[vector] := Gate(address % 0x1_0000, GDT_KCODE * 8, 0, attr, address / 0x1_0000);
    }

    method FillIDT(v: Version, e: Entries)
      requires gates.Length == 256 && e.Valid()
      modifies gates
      ensures gates[..] == Filled(v, e, old(gates[..]))
    {
      for i := 0 to EXCEPT_IMPLEMENTED
        invariant forall n | 0 <= n < 256 ::
                    gates[n] == if n < i then GateTo(PRESENT_INT386, e.exceptions[n]) else old(gates[n])
      {
        SetIntVector(i, PRESENT_INT386, e.exceptions[i]);
      }
      ghost var mid := gates[..];
      for i := 0 to 16
        invariant forall n | 0 <= n < 256 && !(IRQ_BASE <= n < IRQ_BASE + 16) :: gates[n] == mid[n]
        invariant v == Repaired ==> forall n | IRQ_BASE <= n < IRQ_BASE + 16 ::
                    gates[n] == if n < IRQ_BASE + i then GateTo(PRESENT_INT386, e.low[n - IRQ_BASE]) else mid[n]
        invariant v == AsWritten ==> forall n | IRQ_BASE <= n < IRQ_BASE + 16 ::
                    gates[n] == if n == IRQ_BASE && i > 0 then GateTo(PRESENT_INT386, e.low[i - 1]) else mid[n]
      {
        SetIntVector(if v == AsWritten then IRQ_BASE else IRQ_BASE + i, PRESENT_INT386, e.low[i]);
      }
    }

    /** The reflection gates reach vector 255 when repaired and stop at 206 as written. */
    method InitDpmiReflectionHandlers(v: Version)
      requires gates.Length == 256
      modifies gates
      ensures gates[..] == Reflected(v, old(gates[..]))
    {
      for entry := NON_SYSTEM_VECTORS as nat to ReflectionEnd(v)
        invariant forall n | 0 <= n < 256 ::
                    gates[n] == if NON_SYSTEM_VECTORS <= n < entry then REFLECTION else old(gates[n])
      {
        SetIntVector(entry, PRESENT_INT386, 0);
      }
    }
  }

  // ---- The whole path

  /** The stub at an address pushes its own index. */
  function PushedBy(low: seq<Dword>, address: Dword): Option<nat> {
    if low == [] then None
    else if low[|low| - 1] == address then Some(|low| - 1)
    else PushedBy(low[..|low| - 1], address)
  }

  lemma PushedByIndex(low: seq<Dword>, i: nat)
    requires i < |low| && forall j, k | 0 <= j < k < |low| :: low[j] != low[k]
    ensures PushedBy(low, low[i]) == Some(i)
  {
    if i < |low| - 1 { PushedByIndex(low[..|low| - 1], i); }
  }

  function VectorOf(master: Pic, slave: Pic, irq: nat): nat
    requires irq < 16
  {
    if irq < 8 then master.Vector(irq) else slave.Vector(irq - 8)
  }

  /** The argument InMasterDispatch gets for a request on line `irq`, if a gate is there. */
  function Delivered(gates: seq<Gate>, e: Entries, master: Pic, slave: Pic, irq: nat): Option<nat>
    requires |gates| == 256 && irq < 16
  {
    var vector := VectorOf(master, slave, irq);
    if vector < 256 && gates[vector].Present() then PushedBy(e.low, gates[vector].Address()) else None
  }

  /** With the remapped PICs every line is delivered under its own number; as written
      line 0 is delivered as 15 and the others find only what the table held before. */
  lemma DeliveryIsIdentity(v: Version, e: Entries, before: seq<Gate>, irq: nat)
    requires e.Valid() && |before| == 256 && irq < 16
    ensures var got := Delivered(Filled(v, e, before), e, Pic(4, IRQ_BASE, 4, 1), Pic(4, IRQ_BASE + 8, 2, 9), irq);
            && (v == Repaired ==> got == Some(irq))
            && (v == AsWritten && irq == 0 ==> got == Some(15))
            && (v == AsWritten && irq > 0 && !before[IRQ_BASE + irq].Present() ==> got == None)
  {
    PushedByIndex(e.low, irq);
    PushedByIndex(e.low, 15);
    GateRoundTrip(PRESENT_INT386, e.low[irq]);
    GateRoundTrip(PRESENT_INT386, e.low[15]);
    assert VectorOf(Pic(4, IRQ_BASE, 4, 1), Pic(4, IRQ_BASE + 8, 2, 9), irq) == IRQ_BASE + irq;
  }

  // ---- Segment descriptors

  /** The eight bytes of a descriptor hold its base at 2, 3, 4 and 7. */
  function BaseOf(d: seq<Byte>): Dword
    requires |d| == 8
  {
    (d[2] as int) + 0x100 * (d[3] as int) + 0x1_0000 * (d[4] as int) + 0x100_0000 * (d[7] as int)
  }

  /** AppendAddress: the base reads back as the address, and limit, access and
      granularity are as they were. */
  method AppendAddress(d: array<Byte>, address: Dword)
    requires d.Length == 8
    modifies d
    ensures BaseOf(d[..]) == address
    ensures forall i | i in {0, 1, 5, 6} :: d[i] == old(d[i])
  {
    var low: Word := address % 0x1_0000;
    d[2], d[3] := low % 0x100, low / 0x100;
    d[4] := address / 0x1_0000 % 0x100;
    d[7] := address / 0x100_0000;
  }
}
