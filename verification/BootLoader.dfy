/** The boot loader from the locked EMB to the first access through the page tables. */
module BootLoader {
  import opened Text
  import opened Basics
  import opened BootAlign

  const DIRECTORY := 0x10_0000
  const LOW_TABLE := 0x10_1000
  const KERNEL_TABLE := 0x10_2000
  const TABLES_END := 0x10_3000
  const MEGABYTE := 0x10_0000
  const KERNEL_BASE := 0xC000_0000

  // ---- Dwords in memory

  function DwordAt(m: seq<Byte>, at: nat): Dword {
    if at + 4 <= |m| then
      (m[at] as int) + 0x100 * (m[at + 1] as int) + 0x1_0000 * (m[at + 2] as int) + 0x100_0000 * (m[at + 3] as int)
    else 0
  }

  lemma SameDword(m: seq<Byte>, m': seq<Byte>, at: nat)
    requires |m| == |m'| && forall k | at <= k < at + 4 && k < |m| :: m[k] == m'[k]
    ensures DwordAt(m, at) == DwordAt(m', at)
  {
  }

  method StoreDword(mem: array<Byte>, at: nat, value: Dword)
    requires at + 4 <= mem.Length
    modifies mem
    ensures DwordAt(mem[..], at) == value
    ensures forall k | 0 <= k < mem.Length && !(at <= k < at + 4) :: mem[k] == old(mem[k])
  {
    var rest1 := value / 0x100;
    var rest2 := rest1 / 0x100;
    mem[at], mem[at + 1], mem[at + 2], mem[at + 3] := value % 0x100, rest1 % 0x100, rest2 % 0x100, rest2 / 0x100;
  }

  // ---- Loading

  /** How many 4K blocks the loop copies: as written it counts down before the first. */
  function Copied(v: Version, pages: nat): nat {
    if v == AsWritten && pages > 0 then pages - 1 else pages
  }

  datatype Outcome = Loaded | KernelCorrupted | MoveFailed

  /** XMS function 0Bh from conventional memory: refused when it would run past the end of
      the extended memory block. */
  method MoveToEmb(mem: array<Byte>, buffer: seq<Byte>, emb: nat, size: nat, offset: Dword) returns (ok: bool)
    requires emb + size <= mem.Length && |buffer| == PAGE
    modifies mem
    ensures ok <==> offset + PAGE <= size
    ensures !ok ==> mem[..] == old(mem[..])
    ensures ok ==> forall k | 0 <= k < mem.Length ::
              mem[k] == if emb + offset <= k < emb + offset + PAGE then buffer[k - emb - offset] else old(mem[k])
  {
    ok := offset + PAGE <= size;
    if ok {
      forall k | 0 <= k < PAGE { mem[emb + offset + k] := buffer[k]; }
    }
  }

  /** The page count that shrd leaves in AX. */
  function Pages(fileSize: Dword): nat {
    fileSize / PAGE % 0x1_0000
  }

  lemma WholePages(v: Version, length: Dword)
    requires length < 0x1000_0000
    ensures Pages(length) > 0 <==> length >= 4096
    ensures length >= 4096 ==> Copied(v, Pages(length)) * PAGE == length / 4096 * 4096 - if v == AsWritten then 4096 else 0
    ensures length < 4096 ==> Copied(v, Pages(length)) == 0
  {
  }

  /** LoadKernel: the first blocks of the file, in order, from `offset` in the EMB on. */
  method LoadKernel(v: Version, mem: array<Byte>, file: seq<Byte>, emb: nat, size: nat, offset: Dword)
    returns (outcome: Outcome)
    requires emb + size <= mem.Length && size <= 0xFFFF * 1024 && |file| < 0x1_0000_0000
    modifies mem
    ensures outcome == KernelCorrupted <==> Pages(|file|) == 0
    ensures outcome == Loaded <==>
              Pages(|file|) > 0 && (Copied(v, Pages(|file|)) == 0 || offset + Copied(v, Pages(|file|)) * PAGE <= size)
    ensures outcome == Loaded ==> forall k | 0 <= k < mem.Length ::
              mem[k] == if emb + offset <= k < emb + offset + Copied(v, Pages(|file|)) * PAGE
                        then file[k - emb - offset] else old(mem[k])
    ensures forall k | 0 <= k < mem.Length && !(emb <= k < emb + size) :: mem[k] == old(mem[k])
    // Below 256M that is every whole page of the file, or as written all but the last.
    ensures outcome == Loaded && |file| < 0x1000_0000 ==>
              forall i | 0 <= i < |file| / 4096 * 4096 - if v == AsWritten then 4096 else 0 ::
                emb + offset + i < mem.Length && mem[emb + offset + i] == file[i]
  {
    if |file| < 0x1000_0000 { WholePages(v, |file|); }
    var pages := Pages(|file|);
    if pages == 0 {
      return KernelCorrupted;
    }
    var di := pages;
    var desoff := offset;
    var position := 0;
    ghost var goal := Copied(v, pages);
    if v == AsWritten { di := di - 1; }
    while di != 0
      invariant 0 <= di <= goal && position == (goal - di) * PAGE
      invariant di < goal ==> offset + position <= size
      invariant desoff == offset + position
      invariant forall k | 0 <= k < mem.Length ::
                  mem[k] == if emb + offset <= k < emb + offset + position
                            then file[k - emb - offset] else old(mem[k])
    {
      assert position + PAGE <= pages * PAGE <= |file|;
      var buffer := file[position..position + PAGE];
      var ok := MoveToEmb(mem, buffer, emb, size, desoff);
      if !ok {
        return MoveFailed;
      }
      position := position + PAGE;
      desoff := (desoff + PAGE) % 0x1_0000_0000;
      di := di - 1;
    }
    outcome := Loaded;
  }

  // ---- Page tables

  /** The entries that the assembler lays out at IDMap: page k, present, writable, user. */
  const IDMAP: seq<Dword> := seq(256, k requires 0 <= k < 256 => k * PAGE + 7)

  /** `rep movsd` of a table of dwords. */
  method CopyTable(mem: array<Byte>, at: nat, table: seq<Dword>)
    requires at + 4 * |table| <= mem.Length
    modifies mem
    ensures forall k | 0 <= k < |table| :: DwordAt(mem[..], at + 4 * k) == table[k]
    ensures forall k | 0 <= k < mem.Length && !(at <= k < at + 4 * |table|) :: mem[k] == old(mem[k])
  {
    for i := 0 to |table|
      invariant forall k | 0 <= k < i :: DwordAt(mem[..], at + 4 * k) == table[k]
      invariant forall k | 0 <= k < mem.Length && !(at <= k < at + 4 * i) :: mem[k] == old(mem[k])
    {
      ghost var before := mem[..];
      StoreDword(mem, at + 4 * i, table[i]);
      forall k | 0 <= k < i ensures DwordAt(mem[..], at + 4 * k) == table[k] {
        SameDword(before, mem[..], at + 4 * k);
      }
    }
  }

  /** The k-th frame of the kernel, in page numbers of the 32-bit space. */
  function Frame(kernelAddr: Dword, k: nat): (f: nat)
    ensures f < 0x10_0000
  {
    (kernelAddr / PAGE + k) % 0x10_0000
  }

  /** The stosd loop: `eax` goes up one page per entry. */
  method MapKernel(mem: array<Byte>, at: nat, kernelAddr: Dword)
    requires at + 4 * 256 <= mem.Length && kernelAddr % PAGE == 0
    modifies mem
    ensures forall k | 0 <= k < 256 :: DwordAt(mem[..], at + 4 * k) == Frame(kernelAddr, k) * PAGE + 3
    ensures forall k | 0 <= k < mem.Length && !(at <= k < at + 4 * 256) :: mem[k] == old(mem[k])
  {
    var eax: Dword := kernelAddr - kernelAddr % PAGE + 3;
    for i := 0 to 256
      invariant eax == Frame(kernelAddr, i) * PAGE + 3
      invariant forall k | 0 <= k < i :: DwordAt(mem[..], at + 4 * k) == Frame(kernelAddr, k) * PAGE + 3
      invariant forall k | 0 <= k < mem.Length && !(at <= k < at + 4 * i) :: mem[k] == old(mem[k])
    {
      ghost var before := mem[..];
      StoreDword(mem, at + 4 * i, eax);
      forall k | 0 <= k < i ensures DwordAt(mem[..], at + 4 * k) == Frame(kernelAddr, k) * PAGE + 3 {
        SameDword(before, mem[..], at + 4 * k);
      }
      NextFrame(kernelAddr, i);
      eax := (eax + PAGE) % 0x1_0000_0000;
    }
  }

  lemma NextFrame(kernelAddr: Dword, k: nat)
    ensures (Frame(kernelAddr, k) * PAGE + 3 + PAGE) % 0x1_0000_0000 == Frame(kernelAddr, k + 1) * PAGE + 3
  {
    var f := Frame(kernelAddr, k);
    assert Frame(kernelAddr, k + 1) == if f == 0xF_FFFF then 0 else f + 1;
  }

  /** What PageSetup stores, whatever the three pages held before. */
  ghost predicate Stored(m: seq<Byte>, kernelAddr: Dword) {
    && DwordAt(m, DIRECTORY) == LOW_TABLE + 7
    && DwordAt(m, DIRECTORY + 4 * 768) == KERNEL_TABLE + 3
    && (forall k | 0 <= k < 256 :: DwordAt(m, LOW_TABLE + 4 * k) == k * PAGE + 7)
    && (forall k | 0 <= k < 256 :: DwordAt(m, KERNEL_TABLE + 4 * k) == Frame(kernelAddr, k) * PAGE + 3)
  }

  predicate Written(k: nat) {
    || DIRECTORY <= k < DIRECTORY + 4
    || DIRECTORY + 4 * 768 <= k < DIRECTORY + 4 * 769
    || LOW_TABLE <= k < LOW_TABLE + 1024
    || KERNEL_TABLE <= k < KERNEL_TABLE + 1024
  }

  method PageSetup(mem: array<Byte>, kernelAddr: Dword)
    requires mem.Length >= TABLES_END && kernelAddr % PAGE == 0
    modifies mem
    ensures Stored(mem[..], kernelAddr)
    ensures forall k | 0 <= k < mem.Length && !Written(k) :: mem[k] == old(mem[k])
  {
    StoreDword(mem, DIRECTORY, LOW_TABLE + 7);
    ghost var m1 := mem[..];
    StoreDword(mem, DIRECTORY + 4 * 768, KERNEL_TABLE + 3);
    ghost var m2 := mem[..];
    CopyTable(mem, LOW_TABLE, IDMAP);
    ghost var m3 := mem[..];
    MapKernel(mem, KERNEL_TABLE, kernelAddr);
    SameDword(m1, m2, DIRECTORY);
    SameDword(m2, m3, DIRECTORY);
    SameDword(m3, mem[..], DIRECTORY);
    SameDword(m2, m3, DIRECTORY + 4 * 768);
    SameDword(m3, mem[..], DIRECTORY + 4 * 768);
    forall k | 0 <= k < 256 ensures DwordAt(mem[..], LOW_TABLE + 4 * k) == k * PAGE + 7 {
      assert IDMAP[k] == k * PAGE + 7;
      SameDword(m3, mem[..], LOW_TABLE + 4 * k);
    }
  }

  /** CR3 after `and eax, ~0FFFh` and `or eax, 100000h`. */
  function NewCr3(cr3: Dword): Dword {
    var high := cr3 - cr3 % PAGE;
    if high / DIRECTORY % 2 == 1 then high else high + DIRECTORY
  }

  /** CR3 selects the new directory exactly when it held no other address bits; those it held
      stay, the flags below go. */
  lemma NewCr3Exact(cr3: Dword)
    ensures NewCr3(cr3) == DIRECTORY <==> cr3 < PAGE || DIRECTORY <= cr3 < DIRECTORY + PAGE
    ensures NewCr3(cr3) in {cr3 - cr3 % PAGE, cr3 - cr3 % PAGE + DIRECTORY} && NewCr3(cr3) / DIRECTORY % 2 == 1
  {
    NextQuotient(cr3 - cr3 % PAGE);
  }

  lemma NextQuotient(x: nat)
    ensures (x + 0x10_0000) / 0x10_0000 == x / 0x10_0000 + 1
  {
  }

  // ---- Translation (Intel 80386 Programmer's Reference Manual, sections 5.2 and 6.4)

  datatype Access = Fault | Physical(address: nat, user: bool)

  predicate Present(entry: Dword) { entry % 2 == 1 }
  predicate User(entry: Dword) { entry / 4 % 2 == 1 }
  function FrameAddress(entry: Dword): nat { entry - entry % PAGE }

  function Translate(m: seq<Byte>, directory: Dword, linear: Dword): Access {
    var pde := DwordAt(m, directory + 4 * (linear / 0x40_0000));
    if !Present(pde) then Fault
    else
      var pte := DwordAt(m, FrameAddress(pde) + 4 * (linear / PAGE % 1024));
      if !Present(pte) then Fault
      else Physical(FrameAddress(pte) + linear % PAGE, User(pde) && User(pte))
  }

  ghost predicate Zeroed(m: seq<Byte>) {
    |m| >= TABLES_END && forall k | DIRECTORY <= k < TABLES_END :: m[k] == 0
  }

  /** `m'` is what PageSetup makes of `m`. */
  ghost predicate SetUp(m: seq<Byte>, m': seq<Byte>, kernelAddr: Dword) {
    |m| == |m'| && |m| >= TABLES_END && kernelAddr % PAGE == 0
    && Stored(m', kernelAddr) && forall k | 0 <= k < |m| && !Written(k) :: m'[k] == m[k]
  }

  lemma StaleDword(m: seq<Byte>, m': seq<Byte>, kernelAddr: Dword, at: nat)
    requires SetUp(m, m', kernelAddr) && !Written(at) && at % 4 == 0
    ensures DwordAt(m', at) == DwordAt(m, at)
  {
    assert forall k | at <= k < at + 4 :: !Written(k);
    SameDword(m, m', at);
  }

  /** The entries of the finished tables. */
  ghost predicate Tables(m: seq<Byte>, kernelAddr: Dword) {
    && (forall d | 0 <= d < 1024 :: DwordAt(m, DIRECTORY + 4 * d) ==
          if d == 0 then LOW_TABLE + 7 else if d == 768 then KERNEL_TABLE + 3 else 0)
    && (forall t | 0 <= t < 1024 :: DwordAt(m, LOW_TABLE + 4 * t) == if t < 256 then t * PAGE + 7 else 0)
    && (forall t | 0 <= t < 1024 :: DwordAt(m, KERNEL_TABLE + 4 * t) ==
          if t < 256 then Frame(kernelAddr, t) * PAGE + 3 else 0)
  }

  lemma TablesFromZero(m: seq<Byte>, m': seq<Byte>, kernelAddr: Dword)
    requires SetUp(m, m', kernelAddr) && Zeroed(m)
    ensures Tables(m', kernelAddr)
  {
    forall d | 0 <= d < 1024
      ensures DwordAt(m', DIRECTORY + 4 * d) ==
              if d == 0 then LOW_TABLE + 7 else if d == 768 then KERNEL_TABLE + 3 else 0
    {
      if d != 0 && d != 768 { StaleDword(m, m', kernelAddr, DIRECTORY + 4 * d); }
    }
    forall t | 256 <= t < 1024 ensures DwordAt(m', LOW_TABLE + 4 * t) == 0 {
      StaleDword(m, m', kernelAddr, LOW_TABLE + 4 * t);
    }
    forall t | 256 <= t < 1024 ensures DwordAt(m', KERNEL_TABLE + 4 * t) == 0 {
      StaleDword(m, m', kernelAddr, KERNEL_TABLE + 4 * t);
    }
  }

  lemma EntryParts(frame: nat, flags: nat)
    requires frame < 0x10_0000 && flags in {3, 7}
    ensures var e: Dword := frame * PAGE + flags;
            Present(e) && FrameAddress(e) == frame * PAGE && (User(e) <==> flags == 7)
  {
    FrameAndFlags(frame, flags);
    FlagBits(frame, flags);
  }

  lemma FrameAndFlags(frame: nat, flags: nat)
    requires flags < 4096
    ensures (frame * 4096 + flags) % 4096 == flags
  {
  }

  lemma FlagBits(frame: nat, flags: nat)
    requires flags in {3, 7}
    ensures (frame * 4096 + flags) % 2 == 1
    ensures (frame * 4096 + flags) / 4 % 2 == 1 <==> flags == 7
  {
    LowBits(frame * 512);
    if flags == 3 {
      assert frame * 4096 + flags == 8 * (frame * 512) + 3;
    } else {
      assert frame * 4096 + flags == 8 * (frame * 512) + 7;
    }
  }

  lemma LowBits(h: nat)
    ensures (8 * h + 3) % 2 == 1 && (8 * h + 7) % 2 == 1
    ensures (8 * h + 3) / 4 % 2 == 0 && (8 * h + 7) / 4 % 2 == 1
  {
    Odd(4 * h + 1);
    Odd(4 * h + 3);
    Quarter(2 * h, 3);
    Quarter(2 * h + 1, 3);
    Odd(h);
  }

  lemma Odd(k: nat)
    ensures (2 * k + 1) % 2 == 1
  {
  }

  lemma Quarter(k: nat, r: nat)
    requires r < 4
    ensures (4 * k + r) / 4 == k
  {
  }

  lemma Indices(d: nat, t: nat, o: nat)
    requires t < 1024 && o < PAGE
    ensures var linear := d * 0x40_0000 + t * PAGE + o;
            linear / 0x40_0000 == d && linear / PAGE % 1024 == t && linear % PAGE == o
  {
    var linear := d * 0x40_0000 + t * PAGE + o;
    assert linear / PAGE == d * 1024 + t;
  }

  /** The finished tables, in terms of the directory index, table index and offset. */
  lemma TranslateByParts(m: seq<Byte>, kernelAddr: Dword, d: nat, t: nat, o: nat)
    requires Tables(m, kernelAddr) && d < 1024 && t < 1024 && o < PAGE
    ensures Translate(m, DIRECTORY, d * 0x40_0000 + t * PAGE + o) ==
            if d == 0 && t < 256 then Physical(t * PAGE + o, true)
            else if d == 768 && t < 256 then Physical(Frame(kernelAddr, t) * PAGE + o, false)
            else Fault
  {
    Indices(d, t, o);
    EntryParts(LOW_TABLE / PAGE, 7);
    EntryParts(KERNEL_TABLE / PAGE, 3);
    if t < 256 {
      EntryParts(t, 7);
      EntryParts(Frame(kernelAddr, t), 3);
    }
  }

  lemma LinearParts(linear: Dword) returns (d: nat, t: nat, o: nat)
    ensures d < 1024 && t < 1024 && o < PAGE && linear == d * 0x40_0000 + t * PAGE + o
    ensures linear < MEGABYTE <==> d == 0 && t < 256
    ensures KERNEL_BASE <= linear < KERNEL_BASE + MEGABYTE <==> d == 768 && t < 256
  {
    d, t, o := linear / 0x40_0000, linear / PAGE % 1024, linear % PAGE;
    assert linear / PAGE == d * 1024 + t;
  }

  /** From zeroed tables: the first megabyte maps to itself for everyone, the megabyte at
      C0000000h maps to the kernel for the supervisor alone, and nothing else is mapped. */
  lemma TranslationExact(m: seq<Byte>, m': seq<Byte>, kernelAddr: Dword, linear: Dword)
    requires SetUp(m, m', kernelAddr) && Zeroed(m) && kernelAddr + MEGABYTE <= 0x1_0000_0000
    ensures Translate(m', DIRECTORY, linear) ==
            if linear < MEGABYTE then Physical(linear, true)
            else if KERNEL_BASE <= linear < KERNEL_BASE + MEGABYTE then
              Physical(kernelAddr + (linear - KERNEL_BASE), false)
            else Fault
  {
    TablesFromZero(m, m', kernelAddr);
    TranslateAnywhere(m', kernelAddr, linear);
  }

  lemma TranslateAnywhere(m: seq<Byte>, kernelAddr: Dword, linear: Dword)
    requires Tables(m, kernelAddr) && kernelAddr % PAGE == 0
    ensures linear < MEGABYTE ==> Translate(m, DIRECTORY, linear) == Physical(linear, true)
    ensures KERNEL_BASE <= linear < KERNEL_BASE + MEGABYTE && kernelAddr + (linear - KERNEL_BASE) < 0x1_0000_0000 ==>
              Translate(m, DIRECTORY, linear) == Physical(kernelAddr + (linear - KERNEL_BASE), false)
    ensures linear >= MEGABYTE && !(KERNEL_BASE <= linear < KERNEL_BASE + MEGABYTE) ==>
              Translate(m, DIRECTORY, linear) == Fault
  {
    var d, t, o := LinearParts(linear);
    TranslateByParts(m, kernelAddr, d, t, o);
    if d == 768 && t < 256 && kernelAddr + (linear - KERNEL_BASE) < 0x1_0000_0000 {
      assert linear - KERNEL_BASE == t * PAGE + o;
      FrameInRange(kernelAddr, t);
    }
  }

  lemma FrameInRange(kernelAddr: Dword, t: nat)
    requires kernelAddr % PAGE == 0 && kernelAddr + t * PAGE < 0x1_0000_0000
    ensures Frame(kernelAddr, t) * PAGE == kernelAddr + t * PAGE
  {
  }

  /** The zeroing that the comment at IDMap speaks of is nowhere in the code, and it is
      needed: past the first megabyte of either window a page is mapped exactly when
      whatever was in the tables says so. */
  lemma StaleEntriesShow(m: seq<Byte>, m': seq<Byte>, kernelAddr: Dword, window: nat, page: nat)
    requires SetUp(m, m', kernelAddr) && window in {0, 768} && 256 <= page < 1024
    ensures Translate(m', DIRECTORY, window * 0x40_0000 + page * PAGE) != Fault <==>
            Present(DwordAt(m, (if window == 0 then LOW_TABLE else KERNEL_TABLE) + 4 * page))
  {
    Indices(window, page, 0);
    EntryParts(LOW_TABLE / PAGE, 7);
    EntryParts(KERNEL_TABLE / PAGE, 3);
    StaleDword(m, m', kernelAddr, (if window == 0 then LOW_TABLE else KERNEL_TABLE) + 4 * page);
  }

  /** Nor through the directory's other entries: there a page is mapped exactly when the old
      entry is present and so is the table entry that it leads to. */
  lemma StaleDirectoryShows(m: seq<Byte>, m': seq<Byte>, kernelAddr: Dword, d: nat, page: nat)
    requires SetUp(m, m', kernelAddr) && d < 1024 && d !in {0, 768} && page < 1024
    ensures var stale := DwordAt(m, DIRECTORY + 4 * d);
            Translate(m', DIRECTORY, d * 0x40_0000 + page * PAGE) != Fault <==>
            Present(stale) && Present(DwordAt(m', FrameAddress(stale) + 4 * page))
  {
    Indices(d, page, 0);
    StaleDword(m, m', kernelAddr, DIRECTORY + 4 * d);
  }

  // ---- End to end

  /** The supervisor, and only it, reads `b` at `linear`. */
  predicate Reads(m: seq<Byte>, directory: Dword, linear: Dword, b: Byte) {
    var access := Translate(m, directory, linear);
    access.Physical? && !access.user && access.address < |m| && m[access.address] == b
  }

  /** Byte i of the first `count` bytes of `file` is read at linear address C0000000h +
      skew + i, as far as the kernel window reaches. */
  ghost predicate WindowHolds(m: seq<Byte>, directory: Dword, skew: nat, file: seq<Byte>, count: nat) {
    count <= |file| && forall i | 0 <= i < count && skew + i < MEGABYTE ::
      Reads(m, directory, KERNEL_BASE + skew + i, file[i])
  }

  /** The window's own entries are all stored by PageSetup, so it does not matter what the
      rest of the tables held. */
  lemma WindowTranslates(m: seq<Byte>, kernelAddr: Dword, i: nat)
    requires Stored(m, kernelAddr) && kernelAddr % PAGE == 0 && i < MEGABYTE && kernelAddr + i < 0x1_0000_0000
    ensures Translate(m, DIRECTORY, KERNEL_BASE + i) == Physical(kernelAddr + i, false)
  {
    var t, o := i / PAGE, i % PAGE;
    assert KERNEL_BASE + i == 768 * 0x40_0000 + t * PAGE + o;
    Indices(768, t, o);
    EntryParts(KERNEL_TABLE / PAGE, 3);
    EntryParts(Frame(kernelAddr, t), 3);
    FrameInRange(kernelAddr, t);
  }

  lemma WindowFilled(m: seq<Byte>, kernelAddr: Dword, skew: nat, file: seq<Byte>, count: nat)
    requires Stored(m, kernelAddr) && kernelAddr % PAGE == 0
    requires count <= |file| && kernelAddr + skew + count <= |m| <= 0x1_0000_0000
    requires forall k | 0 <= k < count :: m[kernelAddr + skew + k] == file[k]
    ensures WindowHolds(m, DIRECTORY, skew, file, count)
  {
    forall i | 0 <= i < count && skew + i < MEGABYTE
      ensures Reads(m, DIRECTORY, KERNEL_BASE + skew + i, file[i])
    {
      WindowTranslates(m, kernelAddr, skew + i);
    }
  }

  /** How far up the load goes as written, by its instructions' inputs. */
  function Shift(dx: Word, bx: Word): nat {
    if bx <= 0xF000 then 0 else if dx < 0xFFFF then 0x1_0000 else 0xFFFF
  }

  /** `m'` is `m` with the first `count` bytes of the file at `start`. */
  ghost predicate Placed(m: seq<Byte>, m': seq<Byte>, start: nat, file: seq<Byte>, count: nat) {
    |m'| == |m| && count <= |file| && (count > 0 ==> start + count <= |m|)
    && forall k | 0 <= k < |m| :: m'[k] == if start <= k < start + count then file[k - start] else m[k]
  }

  /** The load and the page tables, once it is known where the kernel goes. */
  method LoadAndMap(v: Version, mem: array<Byte>, file: seq<Byte>, emb: nat, size: nat, offset: Dword,
                    kernelAddr: Dword, ghost skew: nat, cr3: Dword)
    returns (outcome: Outcome, newCr3: Dword)
    requires TABLES_END <= emb && emb + size <= mem.Length <= 0x1_0000_0000
    requires size <= 0xFFFF * 1024 && |file| < 0x1_0000_0000 && kernelAddr % PAGE == 0
    requires offset < size ==> emb + offset == kernelAddr + skew
    modifies mem
    ensures outcome == KernelCorrupted <==> Pages(|file|) == 0
    ensures outcome == Loaded ==> newCr3 == NewCr3(cr3)
    ensures var count := Copied(v, Pages(|file|)) * PAGE;
            outcome == Loaded <==> Pages(|file|) > 0 && (count == 0 || offset + count <= size)
    ensures outcome == Loaded && newCr3 == DIRECTORY ==>
              WindowHolds(mem[..], newCr3, skew, file, Copied(v, Pages(|file|)) * PAGE)
    ensures outcome == Loaded ==> forall k | 0 <= k < mem.Length && !Written(k) ::
              !(emb + offset <= k < emb + offset + Copied(v, Pages(|file|)) * PAGE) ==> mem[k] == old(mem[k])
  {
    newCr3 := cr3;
    outcome := LoadKernel(v, mem, file, emb, size, offset);
    if outcome != Loaded {
      return;
    }
    ghost var loaded := mem[..];
    ghost var count := Copied(v, Pages(|file|)) * PAGE;
    assert Placed(old(mem[..]), loaded, emb + offset, file, count);
    PageSetup(mem, kernelAddr);
    newCr3 := NewCr3(cr3);
    if count > 0 {
      LoadedIsRead(old(mem[..]), loaded, mem[..], kernelAddr, skew, emb + offset, file, count);
    }
  }

  lemma StillAligned(x: nat)
    requires x % 4096 == 0
    ensures x % 0x1_0000_0000 % 4096 == 0
  {
    var q, r := x / 0x1_0000_0000, x % 0x1_0000_0000;
    assert x == 4096 * (0x10_0000 * q) + r;
  }

  /** The loader from the locked EMB at DX:BX on. The block lies above the high memory area, which the loader owns and
      builds the tables in. The file up to its last whole page (as written up to the one
      before) is what linear addresses from C0000000h on read (as written shifted), in the
      window's first megabyte. */
  method Boot(v: Version, mem: array<Byte>, file: seq<Byte>, dx: Word, bx: Word, size: nat, cr3: Dword)
    returns (outcome: Outcome, newCr3: Dword)
    requires TABLES_END <= Pair(dx, bx) && Pair(dx, bx) + size <= mem.Length <= 0x1_0000_0000
    requires size <= 0xFFFF * 1024 && |file| < 0x1_0000_0000
    modifies mem
    ensures outcome == KernelCorrupted <==> Pages(|file|) == 0
    ensures outcome == Loaded ==> newCr3 == NewCr3(cr3)
    ensures outcome == Loaded <==>
              && Pages(|file|) > 0
              && (Copied(v, Pages(|file|)) == 0 || Gap(dx, bx) + Skew(v, dx, bx) + Copied(v, Pages(|file|)) * PAGE <= size)
    ensures outcome == Loaded && newCr3 == DIRECTORY ==>
              WindowHolds(mem[..], newCr3, Skew(v, dx, bx), file, Copied(v, Pages(|file|)) * PAGE)
    ensures outcome == Loaded ==> forall k | 0 <= k < mem.Length && !Written(k) ::
              var start := PageUp(Pair(dx, bx)) + Skew(v, dx, bx);
              !(start <= k < start + Copied(v, Pages(|file|)) * PAGE) ==> mem[k] == old(mem[k])
    ensures v == Repaired && |file| < 0x1000_0000 ==>
              (outcome == Loaded <==> |file| >= 4096 && Gap(dx, bx) + |file| / 4096 * 4096 <= size)
    ensures v == Repaired && |file| < 0x1000_0000 && outcome == Loaded && newCr3 == DIRECTORY ==>
              forall i | 0 <= i < |file| / 4096 * 4096 && i < MEGABYTE :: Reads(mem[..], newCr3, KERNEL_BASE + i, file[i])
    ensures v == AsWritten && |file| < 0x1000_0000 ==>
              (outcome == Loaded <==>
                 && |file| >= 4096
                 && (|file| < 8192 || Gap(dx, bx) + Shift(dx, bx) + (|file| / 4096 - 1) * 4096 <= size))
    ensures v == AsWritten && |file| < 0x1000_0000 && outcome == Loaded && newCr3 == DIRECTORY ==>
              forall i | 0 <= i < (|file| / 4096 - 1) * 4096 && Shift(dx, bx) + i < MEGABYTE ::
                Reads(mem[..], newCr3, KERNEL_BASE + Shift(dx, bx) + i, file[i])
  {
    var kernelAddr, offset := AlignKernel(v, dx, bx);
    StillAligned(PageUp(Pair(dx, bx)));
    if offset < size { LoadStarts(v, dx, bx, kernelAddr, offset); }
    outcome, newCr3 := LoadAndMap(v, mem, file, Pair(dx, bx), size, offset, kernelAddr, Skew(v, dx, bx), cr3);
    if |file| < 0x1000_0000 { InBytes(v, |file|, dx, bx); }
  }

  lemma InBytes(v: Version, length: Dword, dx: Word, bx: Word)
    requires length < 0x1000_0000
    ensures Pages(length) > 0 <==> length >= 4096
    ensures v == Repaired ==> Copied(v, Pages(length)) * PAGE == length / 4096 * 4096 && Skew(v, dx, bx) == 0
    ensures v == AsWritten && length >= 4096 ==> Copied(v, Pages(length)) * PAGE == (length / 4096 - 1) * 4096
    ensures v == AsWritten && length >= 4096 ==> (Copied(v, Pages(length)) == 0 <==> length < 8192)
    ensures v == AsWritten ==> Skew(v, dx, bx) == Shift(dx, bx)
  {
    WholePages(v, length);
  }

  /** What is loaded starts at the aligned address, but for the skew. */
  lemma LoadStarts(v: Version, dx: Word, bx: Word, kernelAddr: Dword, offset: Dword)
    requires kernelAddr == PageUp(Pair(dx, bx)) % 0x1_0000_0000 && offset == Gap(dx, bx) + Skew(v, dx, bx)
    requires Pair(dx, bx) + offset < 0x1_0000_0000
    ensures Pair(dx, bx) + offset == kernelAddr + Skew(v, dx, bx)
  {
  }

  /** Loading, then setting up the tables below the load, makes the window hold the file. */
  lemma LoadedIsRead(m: seq<Byte>, loaded: seq<Byte>, m': seq<Byte>, kernelAddr: Dword, skew: nat, start: nat, file: seq<Byte>, count: nat)
    requires SetUp(loaded, m', kernelAddr) && |m| <= 0x1_0000_0000 && start == kernelAddr + skew
    requires TABLES_END <= start && count > 0 && Placed(m, loaded, start, file, count)
    ensures WindowHolds(m', DIRECTORY, skew, file, count)
  {
    forall k | 0 <= k < count ensures m'[kernelAddr + skew + k] == file[k] {
      assert loaded[kernelAddr + skew + k] == file[k];
      assert !Written(kernelAddr + skew + k);
    }
    WindowFilled(m', kernelAddr, skew, file, count);
  }
}
