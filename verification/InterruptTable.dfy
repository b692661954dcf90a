/** The interrupt table of the plug-and-play manager: sixteen two-bit levels packed in
    one DWORD, a handler and an owner for each IRQ. */
module InterruptTable {
  import opened Text

  /** A VINT is a DWORD; only 0 to 15 name an IRQ. */
  type Irq = n: bv32 | n < 16

  type Level = l: bv32 | l < 4

  const UNDEFINED: Level := 0
  const BUS_FREE: Level := 1
  const BUS_INUSE: Level := 2
  const RECL_16: Level := 3

  const EMPTY_MAP: bv32 := 0

  type Pointer = nat
  const NULL: Pointer := 0

  /** `Leftover` is what a C function returns when it falls off its end: whatever the
      result register held. */
  datatype Status = OsOk | OsErrorGeneric | Leftover

  /** The sixteen-entry array that the DWORD stands for. */
  function LevelOf(bmp: bv32, irq: Irq): Level {
    (bmp >> (irq * 2)) & 3
  }

  /** Two bits for each IRQ, IRQ 0 lowest. */
  lemma LevelLayout(irq: Irq, lvl: Level)
    ensures LevelOf(lvl << (irq * 2), irq) == lvl
  {
    TwoBitsInPlace(irq, lvl);
  }

  lemma TwoBitsInPlace(a: bv32, lvl: bv32)
    requires a < 16 && lvl < 4
    ensures ((lvl << (a * 2)) >> (a * 2)) & 3 == lvl
  {
  }

  /** SetInterruptEntry's store: as written the new level is ORed over the old one;
      repaired, the old level is exchanged for it. */
  function Stored(v: Version, bmp: bv32, irq: Irq, lvl: Level): bv32 {
    match v
    case AsWritten => bmp | (lvl << (irq * 2))
    case Repaired => bmp ^ ((LevelOf(bmp, irq) ^ lvl) << (irq * 2))
  }

  /** What InGetInterruptLevel returns; as written, without a mask. */
  function Fetched(v: Version, bmp: bv32, irq: Irq): bv32 {
    match v
    case AsWritten => bmp >> (irq * 2)
    case Repaired => (bmp >> (irq * 2)) & 3
  }

  /** The map after a read; as written, the read's shift is stored back. */
  function AfterFetch(v: Version, bmp: bv32, irq: Irq): bv32 {
    match v
    case AsWritten => bmp >> (irq * 2)
    case Repaired => bmp
  }

  // ---- One set, one get

  /** Setting one IRQ's level sets that entry of the array and no other. */
  lemma StoredIsArrayUpdate(bmp: bv32, i: Irq, j: Irq, lvl: Level)
    ensures LevelOf(Stored(Repaired, bmp, i, lvl), j) == if i == j then lvl else LevelOf(bmp, j)
  {
    if i == j {
      ExchangedHere(bmp, i, lvl);
    } else {
      ExchangedElsewhere(bmp, i, j, LevelOf(bmp, i) ^ lvl);
    }
  }

  lemma ExchangedHere(bmp: bv32, a: bv32, lvl: bv32)
    requires a < 16 && lvl < 4
    ensures ((bmp ^ ((((bmp >> (a * 2)) & 3) ^ lvl) << (a * 2))) >> (a * 2)) & 3 == lvl
  {
  }

  lemma ExchangedElsewhere(bmp: bv32, a: bv32, b: bv32, d: bv32)
    requires a < 16 && b < 16 && d < 4 && a != b
    ensures ((bmp ^ (d << (a * 2))) >> (b * 2)) & 3 == (bmp >> (b * 2)) & 3
  {
  }

  lemma OredHere(bmp: bv32, a: bv32, lvl: bv32)
    requires a < 16 && lvl < 4
    ensures ((bmp | (lvl << (a * 2))) >> (a * 2)) & 3 == ((bmp >> (a * 2)) & 3) | lvl
  {
  }

  lemma OredElsewhere(bmp: bv32, a: bv32, b: bv32, lvl: bv32)
    requires a < 16 && b < 16 && lvl < 4 && a != b
    ensures ((bmp | (lvl << (a * 2))) >> (b * 2)) & 3 == (bmp >> (b * 2)) & 3
  {
  }

  lemma StoredHere(bmp: bv32, irq: Irq, lvl: Level)
    ensures LevelOf(Stored(AsWritten, bmp, irq, lvl), irq) == LevelOf(bmp, irq) | lvl
  {
    OredHere(bmp, irq, lvl);
  }

  lemma StoredElsewhere(bmp: bv32, irq: Irq, j: Irq, lvl: Level)
    requires j != irq
    ensures LevelOf(Stored(AsWritten, bmp, irq, lvl), j) == LevelOf(bmp, j)
  {
    OredElsewhere(bmp, irq, j, lvl);
  }

  lemma InUseAsWritten(bmp: bv32, irq: Irq)
    ensures LevelOf(Stored(AsWritten, bmp, irq, BUS_INUSE), irq) == BUS_INUSE <==>
            LevelOf(bmp, irq) in {UNDEFINED, BUS_INUSE}
  {
    StoredHere(bmp, irq, BUS_INUSE);
    OrIntoInUse(LevelOf(bmp, irq), LevelOf(Stored(AsWritten, bmp, irq, BUS_INUSE), irq));
  }

  /** As written, a set is an update of the array exactly when the entry's old bits are
      all in the new level; BUS_FREE and RECL_16 never become BUS_INUSE. */
  lemma StoredAsWrittenExact(bmp: bv32, irq: Irq, j: Irq, lvl: Level)
    ensures LevelOf(Stored(AsWritten, bmp, irq, lvl), irq) == lvl <==> LevelOf(bmp, irq) | lvl == lvl
    ensures j != irq ==> LevelOf(Stored(AsWritten, bmp, irq, lvl), j) == LevelOf(bmp, j)
    ensures LevelOf(Stored(AsWritten, bmp, irq, BUS_INUSE), irq) == BUS_INUSE <==>
            LevelOf(bmp, irq) in {UNDEFINED, BUS_INUSE}
  {
    StoredHere(bmp, irq, lvl);
    if j != irq { StoredElsewhere(bmp, irq, j, lvl); }
    InUseAsWritten(bmp, irq);
  }

  lemma OrIntoInUse(l: bv32, after: bv32)
    requires l < 4 && after == l | 2
    ensures after == 2 <==> l == 0 || l == 2
  {
  }

  /** As written, a get returns the level exactly when every higher IRQ is UNDEFINED. */
  lemma FetchedAsWrittenExact(bmp: bv32, irq: Irq)
    ensures Fetched(Repaired, bmp, irq) == LevelOf(bmp, irq)
    ensures Fetched(AsWritten, bmp, irq) == LevelOf(bmp, irq) <==>
            forall j: Irq | j > irq :: LevelOf(bmp, j) == UNDEFINED
  {
    if Fetched(AsWritten, bmp, irq) == LevelOf(bmp, irq) {
      forall j: Irq | j > irq ensures LevelOf(bmp, j) == UNDEFINED { HighClear(bmp, irq, j); }
    } else {
      var j := HighSet(bmp, irq);
      assert LevelOf(bmp, j) != UNDEFINED;
    }
  }

  lemma HighClear(bmp: bv32, i: bv32, j: bv32)
    requires i < j < 16 && bmp >> (i * 2) == (bmp >> (i * 2)) & 3
    ensures (bmp >> (j * 2)) & 3 == 0
  {
  }

  lemma HighSet(bmp: bv32, i: bv32) returns (j: bv32)
    requires i < 16 && bmp >> (i * 2) != (bmp >> (i * 2)) & 3
    ensures i < j < 16 && (bmp >> (j * 2)) & 3 != 0
  {
    j := NonZeroPair(bmp, i + 1);
  }

  lemma NonZeroPair(x: bv32, from: bv32) returns (j: bv32)
    requires from < 16 && x >> (from * 2) != 0
    ensures from <= j < 16 && (x >> (j * 2)) & 3 != 0
    decreases 16 - from
  {
    if (x >> (from * 2)) & 3 != 0 { j := from; }
    else {
      NextPair(x, from);
      j := NonZeroPair(x, from + 1);
    }
  }

  lemma NextPair(x: bv32, k: bv32)
    requires k < 16 && x >> (k * 2) != 0 && (x >> (k * 2)) & 3 == 0
    ensures k + 1 < 16 && x >> ((k + 1) * 2) != 0
  {
  }

  /** As written, reading IRQ `irq` moves every level down by `irq` places; only a read
      of IRQ 0, or of an empty map, leaves the map as it was. */
  lemma FetchMovesLevels(bmp: bv32, irq: Irq, j: Irq)
    ensures LevelOf(AfterFetch(AsWritten, bmp, irq), j) ==
            if j + irq < 16 then LevelOf(bmp, j + irq) else UNDEFINED
    ensures AfterFetch(AsWritten, bmp, irq) == bmp <==> irq == 0 || bmp == 0
  {
    MovedBits(bmp, irq, j);
  }

  lemma MovedBits(x: bv32, i: bv32, j: bv32)
    requires i < 16 && j < 16
    ensures ((x >> (i * 2)) >> (j * 2)) & 3 == if j + i < 16 then (x >> ((j + i) * 2)) & 3 else 0
    ensures x >> (i * 2) == x <==> i == 0 || x == 0
  {
  }

  /** What a read of `irq` leaves: as written every level has moved down. */
  ghost predicate Left(v: Version, bmp: bv32, irq: Irq, after: bv32) {
    forall j: Irq :: LeftAt(v, bmp, irq, after, j)
  }

  predicate LeftAt(v: Version, bmp: bv32, irq: Irq, after: bv32, j: Irq) {
    LevelOf(after, j) ==
      if v == Repaired then LevelOf(bmp, j) else if j + irq < 16 then LevelOf(bmp, j + irq) else UNDEFINED
  }

  lemma LeavesAt(v: Version, bmp: bv32, irq: Irq, after: bv32, j: Irq)
    requires after == AfterFetch(v, bmp, irq)
    ensures LeftAt(v, bmp, irq, after, j)
  {
    FetchMovesLevels(bmp, irq, j);
  }

  lemma FetchLeaves(v: Version, bmp: bv32, irq: Irq, after: bv32)
    requires after == AfterFetch(v, bmp, irq)
    ensures Left(v, bmp, irq, after)
  {
    forall j: Irq ensures LeftAt(v, bmp, irq, after, j) { LeavesAt(v, bmp, irq, after, j); }
  }

  ghost predicate NothingAbove(bmp: bv32, irq: Irq) {
    forall j: Irq | j > irq :: LevelOf(bmp, j) == UNDEFINED
  }

  lemma FetchedExact(v: Version, bmp: bv32, irq: Irq)
    ensures Fetched(v, bmp, irq) == LevelOf(bmp, irq) <==> v == Repaired || NothingAbove(bmp, irq)
  {
    FetchedAsWrittenExact(bmp, irq);
  }

  // ---- Any sequence of sets and gets

  datatype Op = Set(irq: Irq, lvl: Level) | Get(irq: Irq)

  function MapAfter(v: Version, ops: seq<Op>): bv32 {
    if ops == [] then EMPTY_MAP
    else
      var bmp := MapAfter(v, ops[..|ops| - 1]);
      match ops[|ops| - 1]
      case Set(irq, lvl) => Stored(v, bmp, irq, lvl)
      case Get(irq) => AfterFetch(v, bmp, irq)
  }

  /** The last level set for `irq`. */
  function LastSet(ops: seq<Op>, irq: Irq): Level {
    if ops == [] then UNDEFINED
    else
      var op := ops[|ops| - 1];
      if op.Set? && op.irq == irq then op.lvl else LastSet(ops[..|ops| - 1], irq)
  }

  /** After any sets and gets, reading any IRQ gives the last level set for it. */
  lemma {:induction false} PackedMapIsArray(ops: seq<Op>, irq: Irq)
    ensures Fetched(Repaired, MapAfter(Repaired, ops), irq) == LastSet(ops, irq)
    decreases |ops|
  {
    if ops != [] {
      var before := ops[..|ops| - 1];
      PackedMapIsArray(before, irq);
      var op := ops[|ops| - 1];
      if op.Set? { StoredIsArrayUpdate(MapAfter(Repaired, before), op.irq, irq, op.lvl); }
    }
  }

  // ---- Ownership

  /** An index into the handlers and owners; an absent entry is a NULL one. */
  datatype Slot = Slot(irq: Irq)

  /** `interrupts`, which starts zeroed. */
  datatype Table = Table(lvlBmp: bv32, handlers: map<Slot, Pointer>, owners: map<Slot, Pointer>) {
    function LevelAt(irq: Irq): Level { LevelOf(lvlBmp, irq) }
    function Handler(irq: Irq): Pointer { if Slot(irq) in handlers then handlers[Slot(irq)] else NULL }
    function Owner(irq: Irq): Pointer { if Slot(irq) in owners then owners[Slot(irq)] else NULL }
  }

  /** The address of kernel_bus_hdr. */
  const KERNEL_BUS: Pointer := 1

  function SetEntry(v: Version, t: Table, irq: Irq, lvl: Level, handler: Pointer, owner: Pointer): Table {
    Table(Stored(v, t.lvlBmp, irq, lvl), t.handlers[Slot(irq) := handler], t.owners[Slot(irq) := owner])
  }

  function Acquire(v: Version, t: Table, irq: Irq, handler: Pointer): (Status, Table) {
    var t' := t.(lvlBmp := AfterFetch(v, t.lvlBmp, irq));
    if Fetched(v, t.lvlBmp, irq) == BUS_INUSE then (OsErrorGeneric, t')
    else (if v == AsWritten then Leftover else OsOk, SetEntry(v, t', irq, BUS_INUSE, handler, KERNEL_BUS))
  }

  /** Acquiring takes a BUS_FREE or RECL_16 IRQ for the kernel bus, refuses exactly a
      BUS_INUSE one, and leaves every other entry alone. */
  lemma AcquireTakesOrRefuses(t: Table, irq: Irq, handler: Pointer, j: Irq)
    ensures var (status, t') := Acquire(Repaired, t, irq, handler);
            && (status == OsErrorGeneric <==> t.LevelAt(irq) == BUS_INUSE)
            && (status == OsErrorGeneric ==> t' == t)
            && t'.LevelAt(irq) == BUS_INUSE
            && (t.LevelAt(irq) != BUS_INUSE ==>
                  status == OsOk && t'.Handler(irq) == handler && t'.Owner(irq) == KERNEL_BUS)
            && (j != irq ==>
                  t'.LevelAt(j) == t.LevelAt(j) && t'.Handler(j) == t.Handler(j) && t'.Owner(j) == t.Owner(j))
  {
    StoredIsArrayUpdate(t.lvlBmp, irq, irq, BUS_INUSE);
    StoredIsArrayUpdate(t.lvlBmp, irq, j, BUS_INUSE);
  }

  datatype Request = Request(irq: Irq, handler: Pointer)

  function AcquireAll(v: Version, t: Table, requests: seq<Request>): Table
    decreases |requests|
  {
    if requests == [] then t
    else AcquireAll(v, Acquire(v, t, requests[0].irq, requests[0].handler).1, requests[1..])
  }

  /** Once an IRQ is BUS_INUSE, no sequence of acquisitions changes its level, handler
      or owner. */
  lemma {:induction false} InUseIsKept(t: Table, requests: seq<Request>, irq: Irq)
    requires t.LevelAt(irq) == BUS_INUSE
    ensures var t' := AcquireAll(Repaired, t, requests);
            t'.LevelAt(irq) == BUS_INUSE && t'.Handler(irq) == t.Handler(irq) && t'.Owner(irq) == t.Owner(irq)
    decreases |requests|
  {
    if requests != [] {
      var r := requests[0];
      AcquireTakesOrRefuses(t, r.irq, r.handler, irq);
      InUseIsKept(Acquire(Repaired, t, r.irq, r.handler).1, requests[1..], irq);
    }
  }

  /** The first to acquire an IRQ that was not in use keeps it. */
  lemma FirstAcquirerKeeps(t: Table, irq: Irq, handler: Pointer, later: seq<Request>)
    requires t.LevelAt(irq) != BUS_INUSE
    ensures var t' := AcquireAll(Repaired, Acquire(Repaired, t, irq, handler).1, later);
            t'.LevelAt(irq) == BUS_INUSE && t'.Handler(irq) == handler && t'.Owner(irq) == KERNEL_BUS
  {
    AcquireTakesOrRefuses(t, irq, handler, irq);
    InUseIsKept(Acquire(Repaired, t, irq, handler).1, later, irq);
  }

  /** As written, an acquisition that is not refused leaves the IRQ BUS_INUSE exactly
      when the level its read shifted into place was UNDEFINED or BUS_INUSE already. */
  lemma AcquireAsWrittenExact(t: Table, irq: Irq, handler: Pointer)
    ensures var (status, t') := Acquire(AsWritten, t, irq, handler);
            && status == (if t.lvlBmp >> (irq * 2) == BUS_INUSE then OsErrorGeneric else Leftover)
            && (status == OsErrorGeneric <==> t.lvlBmp >> (irq * 2) == BUS_INUSE)
            && (status != OsErrorGeneric ==>
                  (t'.LevelAt(irq) == BUS_INUSE <==>
                   irq + irq >= 16 || LevelOf(t.lvlBmp, irq + irq) in {UNDEFINED, BUS_INUSE}))
  {
    FetchMovesLevels(t.lvlBmp, irq, irq);
    InUseAsWritten(AfterFetch(AsWritten, t.lvlBmp, irq), irq);
  }

  predicate SameLevel(t: Table, t': Table, irq: Irq) {
    t'.LevelAt(irq) == t.LevelAt(irq)
  }

  predicate SameHandler(t: Table, t': Table, irq: Irq) {
    t'.Handler(irq) == t.Handler(irq) && t'.Owner(irq) == t.Owner(irq)
  }

  /** What can be asked before the call: whether the entry of `irq`, in use, would survive
      an acquisition of `i` as written. */
  predicate Harmless(t: Table, i: Irq, handler: Pointer, irq: Irq) {
    LevelHarmless(t.lvlBmp, i, irq) && HandlerHarmless(t, i, handler, irq)
  }

  predicate HandlerHarmless(t: Table, i: Irq, handler: Pointer, irq: Irq) {
    i == irq && t.lvlBmp >> (i * 2) != BUS_INUSE ==> t.Handler(irq) == handler && t.Owner(irq) == KERNEL_BUS
  }

  predicate LevelHarmless(bmp: bv32, i: Irq, irq: Irq) {
    if bmp >> (i * 2) == BUS_INUSE then irq == 0
    else if i == irq then irq + irq >= 16 || LevelOf(bmp, irq + irq) in {UNDEFINED, BUS_INUSE}
    else irq + i < 16 && LevelOf(bmp, irq + i) == BUS_INUSE
  }

  /** As written, an IRQ that is BUS_INUSE keeps its level, handler and owner through one
      acquisition exactly when the read's shift happens to put BUS_INUSE back in its place,
      and its own second acquisition is by the same handler. */
  lemma InUseAsWrittenExact(t: Table, i: Irq, handler: Pointer, irq: Irq, t': Table)
    requires t.LevelAt(irq) == BUS_INUSE && t' == Acquire(AsWritten, t, i, handler).1
    ensures SameLevel(t, t', irq) <==> LevelHarmless(t.lvlBmp, i, irq)
    ensures SameHandler(t, t', irq) <==> HandlerHarmless(t, i, handler, irq)
  {
    LevelKept(t, i, handler, irq, t');
    HandlerKept(t, i, handler, irq, t');
  }

  lemma LevelKept(t: Table, i: Irq, handler: Pointer, irq: Irq, t': Table)
    requires t.LevelAt(irq) == BUS_INUSE && t' == Acquire(AsWritten, t, i, handler).1
    ensures SameLevel(t, t', irq) <==> LevelHarmless(t.lvlBmp, i, irq)
  {
    MapOfAcquire(t, i, handler, t');
    LevelAfter(t.lvlBmp, i, irq);
  }

  lemma HandlerKept(t: Table, i: Irq, handler: Pointer, irq: Irq, t': Table)
    requires t' == Acquire(AsWritten, t, i, handler).1
    ensures SameHandler(t, t', irq) <==> HandlerHarmless(t, i, handler, irq)
  {
    EntryAfter(t, i, handler, irq, t', t.lvlBmp >> (i * 2) == BUS_INUSE);
    HandlerIff(t, i, handler, irq, t');
  }

  lemma HandlerIff(t: Table, i: Irq, handler: Pointer, irq: Irq, t': Table)
    requires i == irq && t.lvlBmp >> (i * 2) != BUS_INUSE ==> t'.Handler(irq) == handler && t'.Owner(irq) == KERNEL_BUS
    requires i != irq || t.lvlBmp >> (i * 2) == BUS_INUSE ==> SameHandler(t, t', irq)
    ensures SameHandler(t, t', irq) <==> HandlerHarmless(t, i, handler, irq)
  {
  }

  lemma MapOfAcquire(t: Table, i: Irq, handler: Pointer, t': Table)
    requires t' == Acquire(AsWritten, t, i, handler).1
    ensures t'.lvlBmp == MapAfterAcquire(t.lvlBmp, i)
  {
  }

  lemma EntryAfter(t: Table, i: Irq, handler: Pointer, irq: Irq, t': Table, refused: bool)
    requires t' == Acquire(AsWritten, t, i, handler).1 && (refused <==> Fetched(AsWritten, t.lvlBmp, i) == BUS_INUSE)
    ensures i == irq && !refused ==> t'.Handler(irq) == handler && t'.Owner(irq) == KERNEL_BUS
    ensures i != irq || refused ==> SameHandler(t, t', irq)
  {
    if refused {
      assert t'.handlers == t.handlers && t'.owners == t.owners;
    } else {
      assert t'.handlers == t.handlers[Slot(i) := handler] && t'.owners == t.owners[Slot(i) := KERNEL_BUS];
    }
  }

  /** The map after an acquisition as written. */
  function MapAfterAcquire(bmp: bv32, i: Irq): bv32 {
    var shifted := AfterFetch(AsWritten, bmp, i);
    if shifted == BUS_INUSE then shifted else Stored(AsWritten, shifted, i, BUS_INUSE)
  }

  lemma LevelAfter(bmp: bv32, i: Irq, irq: Irq)
    ensures LevelOf(MapAfterAcquire(bmp, i), irq) == BUS_INUSE <==>
            LevelHarmless(bmp, i, irq)
  {
    FetchMovesLevels(bmp, i, irq);
    InUseAlone(irq);
    LevelStored(AfterFetch(AsWritten, bmp, i), i, irq);
  }

  lemma LevelStored(bmp: bv32, i: Irq, irq: Irq)
    ensures i == irq ==> (LevelOf(Stored(AsWritten, bmp, i, BUS_INUSE), irq) == BUS_INUSE <==>
                          LevelOf(bmp, irq) in {UNDEFINED, BUS_INUSE})
    ensures i != irq ==> LevelOf(Stored(AsWritten, bmp, i, BUS_INUSE), irq) == LevelOf(bmp, irq)
  {
    if i == irq { InUseAsWritten(bmp, irq); } else { StoredElsewhere(bmp, i, irq, BUS_INUSE); }
  }

  lemma InUseAlone(irq: Irq)
    ensures LevelOf(BUS_INUSE, irq) == BUS_INUSE <==> irq == 0
  {
    TwoBits(irq);
  }

  lemma TwoBits(i: bv32)
    requires i < 16
    ensures (2 >> (i * 2)) & 3 == 2 as bv32 <==> i == 0
  {
  }

  /** The entry is the same after every one of the acquisitions. */
  predicate KeptThroughout(t: Table, requests: seq<Request>, irq: Irq)
    decreases |requests|
  {
    requests != [] ==>
      var t' := Acquire(AsWritten, t, requests[0].irq, requests[0].handler).1;
      SameLevel(t, t', irq) && SameHandler(t, t', irq) && KeptThroughout(t', requests[1..], irq)
  }

  predicate AllHarmless(t: Table, requests: seq<Request>, irq: Irq)
    decreases |requests|
  {
    requests != [] ==>
      && Harmless(t, requests[0].irq, requests[0].handler, irq)
      && AllHarmless(Acquire(AsWritten, t, requests[0].irq, requests[0].handler).1, requests[1..], irq)
  }

  /** Over any sequence of acquisitions as written, an IRQ in use keeps its entry throughout
      exactly when each is harmless in the table that it finds. */
  lemma {:induction false} KeptAsWrittenExact(t: Table, requests: seq<Request>, irq: Irq)
    requires t.LevelAt(irq) == BUS_INUSE
    ensures KeptThroughout(t, requests, irq) <==> AllHarmless(t, requests, irq)
    decreases |requests|
  {
    if requests != [] {
      var t' := Acquire(AsWritten, t, requests[0].irq, requests[0].handler).1;
      InUseAsWrittenExact(t, requests[0].irq, requests[0].handler, irq, t');
      if SameLevel(t, t', irq) && SameHandler(t, t', irq) { KeptAsWrittenExact(t', requests[1..], irq); }
    }
  }

  /** As written, a free IRQ 0 becomes RECL_16 when it is acquired, so the next caller
      takes it away. */
  lemma AcquireAsWrittenIsNotKept(h1: Pointer, h2: Pointer)
    ensures var t0 := Table(1, map[], map[]);
            && t0.LevelAt(0) == BUS_FREE
            && var t1 := Acquire(AsWritten, t0, 0, h1).1;
            && t1.LevelAt(0) == RECL_16 && t1.Handler(0) == h1
            && Acquire(AsWritten, t1, 0, h2).1.Handler(0) == h2
  {
  }

  // ---- Init_DetectFreeInt as written

  /** BUS_INUSE at IRQ 9 and nothing else. */
  const NINE_INUSE: bv32 := 0x8_0000

  /** The level map after it, if that is what was there before. */
  function DetectedAsWritten(bmp: bv32): bv32 {
    if bmp >> 4 == RECL_16 then NINE_INUSE else bmp >> 4
  }

  lemma NothingLeft(bmp: bv32)
    requires Fetched(AsWritten, bmp, 2) == RECL_16
    ensures Fetched(AsWritten, AfterFetch(AsWritten, bmp, 2), 9) == 0
    ensures Stored(AsWritten, AfterFetch(AsWritten, AfterFetch(AsWritten, bmp, 2), 9), 9, BUS_INUSE) == NINE_INUSE
  {
  }

  /** As written it blocks IRQ 9 exactly when IRQ 2 is RECL_16 and no higher IRQ has any
      level, or IRQ 11 was in use; and then no other IRQ has a level left, or the levels have
      all moved down by two. */
  lemma DetectedExact(bmp: bv32)
    ensures LevelOf(DetectedAsWritten(bmp), 9) == BUS_INUSE <==>
            (LevelOf(bmp, 2) == RECL_16 && NothingAbove(bmp, 2)) || LevelOf(bmp, 11) == BUS_INUSE
    ensures LevelOf(bmp, 2) == RECL_16 && NothingAbove(bmp, 2) ==> OnlyNine(DetectedAsWritten(bmp))
    ensures !(LevelOf(bmp, 2) == RECL_16 && NothingAbove(bmp, 2)) ==> Left(AsWritten, bmp, 2, DetectedAsWritten(bmp))
  {
    FetchedExact(AsWritten, bmp, 2);
    FetchLeaves(AsWritten, bmp, 2, AfterFetch(AsWritten, bmp, 2));
    ElevenToNine(bmp);
    TopBits(bmp);
    forall j: Irq | j != 9 ensures LevelOf(NINE_INUSE, j) == UNDEFINED { OnlyNineBits(j); }
  }

  ghost predicate OnlyNine(bmp: bv32) {
    forall j: Irq | j != 9 :: LevelOf(bmp, j) == UNDEFINED
  }

  lemma OnlyNineBits(j: bv32)
    requires j < 16 && j != 9
    ensures (0x8_0000 >> (j * 2)) & 3 == 0 as bv32
  {
  }

  lemma ElevenToNine(bmp: bv32)
    ensures ((bmp >> 4) >> 18) & 3 == (bmp >> 22) & 3
  {
  }

  lemma TopBits(bmp: bv32)
    ensures bmp >> 4 == 3 ==> (bmp >> 4) & 3 == 3 && (bmp >> 22) & 3 == 0
    ensures (0x8_0000 >> 18) & 3 == 2 as bv32
  {
  }

  // ---- The manager's code

  class InterruptManager {
    var lvlBmp: bv32
    var handlers: map<Slot, Pointer>
    var owners: map<Slot, Pointer>

    constructor ()
      ensures Now() == Table(0, map[], map[])
    {
      lvlBmp, handlers, owners := 0, map[], map[];
    }

    function Now(): Table
      reads this
    {
      Table(lvlBmp, handlers, owners)
    }

    method SetInterruptEntry(v: Version, irq: Irq, lvl: Level, handler: Pointer, owner: Pointer)
      modifies this
      ensures Now() == SetEntry(v, old(Now()), irq, lvl, handler, owner)
    {
      handlers := handlers[Slot(irq) := handler];
      owners := owners[Slot(irq) := owner];
      lvlBmp := Stored(v, lvlBmp, irq, lvl);
    }

    method InGetInterruptLevel(v: Version, irq: Irq) returns (lvl: bv32)
      modifies this`lvlBmp
      ensures lvl == LevelOf(old(lvlBmp), irq) <==> v == Repaired || NothingAbove(old(lvlBmp), irq)
      ensures Left(v, old(lvlBmp), irq, lvlBmp)
      ensures lvl == Fetched(v, old(lvlBmp), irq) && lvlBmp == AfterFetch(v, old(lvlBmp), irq)
    {
      lvl := Fetched(v, lvlBmp, irq);
      FetchedExact(v, lvlBmp, irq);
      FetchLeaves(v, lvlBmp, irq, AfterFetch(v, lvlBmp, irq));
      lvlBmp := AfterFetch(v, lvlBmp, irq);
    }

    method InAcquireLegacyIRQ(v: Version, irq: Irq, handler: Pointer) returns (status: Status)
      modifies this
      ensures status == Acquire(v, old(Now()), irq, handler).0 && Now() == Acquire(v, old(Now()), irq, handler).1
    {
      var lvl := InGetInterruptLevel(v, irq);
      if lvl == BUS_INUSE {
        return OsErrorGeneric;
      }
      SetInterruptEntry(v, irq, BUS_INUSE, handler, KERNEL_BUS);
      status := if v == AsWritten then Leftover else OsOk;
    }

    /** A DOS program on IRQ 2 really hooks IRQ 9, so both are blocked off. */
    method InitDetectFreeInt(v: Version)
      modifies this
      ensures v == Repaired && old(Now().LevelAt(2)) == RECL_16 ==> Now().LevelAt(9) == BUS_INUSE
      ensures v == Repaired && old(Now().LevelAt(2)) == RECL_16 && old(Now().LevelAt(9)) != BUS_INUSE ==>
                Now().Handler(9) == NULL && Now().Owner(9) == KERNEL_BUS
      ensures forall j: Irq | v == Repaired && (j != 9 || old(Now().LevelAt(2)) != RECL_16) ::
                Now().LevelAt(j) == old(Now()).LevelAt(j) && Now().Handler(j) == old(Now()).Handler(j)
                && Now().Owner(j) == old(Now()).Owner(j)
      ensures v == AsWritten ==> Now().lvlBmp == DetectedAsWritten(old(lvlBmp))
      ensures v == AsWritten && old(lvlBmp) >> 4 == RECL_16 ==>
                handlers == old(handlers)[Slot(9) := NULL] && owners == old(owners)[Slot(9) := KERNEL_BUS]
      ensures v == AsWritten && old(lvlBmp) >> 4 != RECL_16 ==> handlers == old(handlers) && owners == old(owners)
    {
      ghost var before := lvlBmp;
      var lvl := InGetInterruptLevel(v, 2);
      if lvl == RECL_16 {
        ghost var t := Now();
        var _ := InAcquireLegacyIRQ(v, 9, NULL);
        if v == Repaired {
          forall j: Irq { AcquireTakesOrRefuses(t, 9, NULL, j); }
        } else {
          NothingLeft(before);
        }
      }
    }
  }
}
