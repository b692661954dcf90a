/** InMasterDispatch on two cascaded 8259As, as the interleaving of the hardware's
    steps with the dispatcher's. */
module Dispatch {
  import opened Text
  import opened Basics
  import opened Pic8259
  import opened Stacks

  type Irq = n: nat | n < 16

  /** Where a dispatch frame stands. `CascadeEoi` is the master-only EOI that a
      spurious IRQ 15 owes. */
  datatype Pc = Entry | Handler | MasterEoi | SlaveEoi | CascadeEoi | Iret

  /** One activation of InMasterDispatch. `id` and `genuine` are history: which
      acknowledgement pushed it, and whether a request was behind it. The
      dispatcher reads neither. */
  datatype Frame = Frame(id: nat, irq: Irq, genuine: bool, pc: Pc)

  datatype Acknowledgement = Acknowledgement(irq: Irq, genuine: bool)

  /** An in-service bit, and the acknowledgement that set it. */
  datatype Debt = Debt(level: Level, id: nat)

  /** History: an EOI written by the frame of acknowledgement `sender`, and the bit that the
      chip reset on it. */
  datatype Eoi = Eoi(sender: nat, onMaster: bool, reset: Option<Debt>)

  datatype State = State(
    master: Chip,
    slave: Chip,
    iflag: bool,
    frames: Stack<Frame>,
    inUse: set<Irq>,                 // the IRQs whose level is BUS_INUSE
    acked: Stack<Acknowledgement>,   // history: a frame's id is the depth it was pushed at
    eois: Stack<Eoi>)                // history: the EOIs so far, the last one first
  {
    /** The top frame has moved to `pc`. */
    function At(pc: Pc): State
      requires frames.On?
    {
      this.(frames := On(frames.top.(pc := pc), frames.under))
    }

    predicate TopAt(pc: Pc) {
      frames.On? && frames.top.pc == pc
    }
  }

  datatype Event =
    | Raise(onMaster: bool, level: Level)
    | Withdraw(onMaster: bool, level: Level)
    | Cascade                         // the slave's INT output reaches the master's IR2
    | SetIf(on: bool)                 // cli or sti by a handler or by the idle kernel
    | Acquire(irq: Irq)               // InAcquireLegacyIRQ by either of them
    | Ack                             // the CPU's INTA cycle
    | Check                           // the in-service read, the spurious tests, the level test
    | HandlerReturns
    | WriteMasterEoi
    | WriteSlaveEoi
    | ReturnFromInterrupt

  function Initial(inUse: set<Irq>): State {
    State(RESET, RESET, true, Bottom, inUse, Bottom, Bottom)
  }

  predicate Enabled(s: State, e: Event) {
    match e
    case Raise(onMaster, level) => onMaster ==> level != CASCADE
    case Withdraw(_, _) => true
    case Cascade => s.slave.Eligible() != {}
    case SetIf(_) => s.frames == Bottom || s.TopAt(Handler)
    case Acquire(_) => s.frames == Bottom || s.TopAt(Handler)
    case Ack => s.iflag
    case Check => s.TopAt(Entry)
    case HandlerReturns => s.TopAt(Handler)
    case WriteMasterEoi => s.TopAt(MasterEoi) || s.TopAt(CascadeEoi)
    case WriteSlaveEoi => s.TopAt(SlaveEoi)
    case ReturnFromInterrupt => s.TopAt(Iret)
  }

  /** The CPU clears IF and enters the stub for `irq`. */
  function Push(s: State, irq: Irq, genuine: bool): State {
    s.(iflag := false,
       frames := On(Frame(s.acked.Depth(), irq, genuine, Entry), s.frames),
       acked := On(Acknowledgement(irq, genuine), s.acked))
  }

  /** INTA: with no eligible request the master answers its vector 7 and sets no
      bit; an eligible IR2 passes the question to the slave, which does the same. */
  function Acknowledge(s: State): State {
    var id := s.acked.Depth();
    if s.master.Eligible() == {} then Push(s, 7, false)
    else
      var p := Least(s.master.Eligible(), 0);
      var s1 := s.(master := s.master.Acknowledge(p, id));
      if p != CASCADE then Push(s1, p, true)
      else if s.slave.Eligible() == {} then Push(s1, 15, false)
      else
        var q := Least(s.slave.Eligible(), 0);
        Push(s1.(slave := s.slave.Acknowledge(q, id)), 8 + q, true)
  }

  /** The test for a spurious interrupt on the chip whose vector 7 arrived: the
      code compares the whole in-service byte with zero; repaired, it looks at bit 7. */
  predicate TakenAsSpurious(v: Version, chip: Chip) {
    match v
    case AsWritten => chip.inService.Keys == {}
    case Repaired => SPURIOUS !in chip.inService.Keys
  }

  /** Where the checks at the head of InMasterDispatch send the frame. */
  function CheckPc(v: Version, s: State): Pc
    requires s.frames.On?
  {
    var irq := s.frames.top.irq;
    if irq == 7 && TakenAsSpurious(v, s.master) then Iret
    else if irq == 15 && TakenAsSpurious(v, s.slave) then if v == AsWritten then Iret else CascadeEoi
    else if irq in s.inUse then Handler
    else Iret
  }

  /** What a non-specific EOI does to the chip's history. */
  function Resets(chip: Chip): Option<Debt> {
    if chip.inService == map[] then None else Some(Debt(chip.Victim(), chip.inService[chip.Victim()]))
  }

  /** SendEOI's first write. */
  function MasterEoiStep(s: State): State
    requires s.frames.On?
  {
    s.At(if s.TopAt(MasterEoi) && s.frames.top.irq > 7 then SlaveEoi else Iret)
     .(master := s.master.NonSpecificEoi(),
       eois := On(Eoi(s.frames.top.id, true, Resets(s.master)), s.eois))
  }

  /** SendEOI's second write. As written the byte 20h goes to port A1h, the slave's
      mask register. */
  function SlaveEoiStep(v: Version, s: State): State
    requires s.frames.On?
  {
    match v
    case AsWritten => s.At(Iret).(slave := s.slave.(masked := {5}))
    case Repaired =>
      s.At(Iret).(slave := s.slave.NonSpecificEoi(),
                  eois := On(Eoi(s.frames.top.id, false, Resets(s.slave)), s.eois))
  }

  function WithRequests(s: State, onMaster: bool, requested: set<Level>): State {
    if onMaster then s.(master := s.master.(requested := requested))
    else s.(slave := s.slave.(requested := requested))
  }

  function Requests(s: State, onMaster: bool): set<Level> {
    if onMaster then s.master.requested else s.slave.requested
  }

  function Step(v: Version, s: State, e: Event): State
    requires Enabled(s, e)
  {
    match e
    case Raise(onMaster, level) => WithRequests(s, onMaster, Requests(s, onMaster) + {level})
    case Withdraw(onMaster, level) => WithRequests(s, onMaster, Requests(s, onMaster) - {level})
    case Cascade => WithRequests(s, true, s.master.requested + {CASCADE})
    case SetIf(on) => s.(iflag := on)
    case Acquire(irq) => s.(inUse := s.inUse + {irq})
    case Ack => Acknowledge(s)
    case Check => s.At(CheckPc(v, s)).(iflag := CheckPc(v, s) == Handler)
    case HandlerReturns => s.At(MasterEoi)
    case WriteMasterEoi => MasterEoiStep(s)
    case WriteSlaveEoi => SlaveEoiStep(v, s)
    case ReturnFromInterrupt => s.(frames := s.frames.under, iflag := true)
  }

  // ---- What the frames owe

  predicate OwesMaster(f: Frame) {
    match f.pc
    case Entry => f.genuine || f.irq == 15
    case Handler => true
    case MasterEoi => true
    case CascadeEoi => true
    case SlaveEoi => false
    case Iret => false
  }

  predicate OwesSlave(f: Frame) {
    f.irq > 7 && f.genuine && f.pc in {Entry, Handler, MasterEoi, SlaveEoi}
  }

  function MasterDebt(f: Frame): Debt {
    Debt(if f.irq < 8 then f.irq else CASCADE, f.id)
  }

  function SlaveDebt(f: Frame): Debt
    requires f.irq > 7
  {
    Debt(f.irq - 8, f.id)
  }

  /** The frames that owe the master an EOI, the top one first. */
  function MasterDebts(frames: Stack<Frame>): Stack<Debt> {
    match frames
    case Bottom => Bottom
    case On(f, under) =>
      if OwesMaster(f) then On(MasterDebt(f), MasterDebts(under)) else MasterDebts(under)
  }

  function SlaveDebts(frames: Stack<Frame>): Stack<Debt> {
    match frames
    case Bottom => Bottom
    case On(f, under) =>
      if OwesSlave(f) then On(SlaveDebt(f), SlaveDebts(under)) else SlaveDebts(under)
  }

  /** The in-service register that exactly these debts would make. */
  function Register(debts: Stack<Debt>): map<Level, nat> {
    match debts
    case Bottom => map[]
    case On(d, under) => Register(under)[d.level := d.id]
  }

  /** Strictly rising priority toward the top of the stack. */
  predicate Rising(debts: Stack<Debt>) {
    debts.On? ==>
      && Rising(debts.under)
      && forall l | l in Register(debts.under) :: debts.top.level < l
  }

  function Ids(debts: Stack<Debt>): multiset<nat> {
    match debts
    case Bottom => multiset{}
    case On(d, under) => Ids(under) + multiset{d.id}
  }

  /** The acknowledgements whose bit one chip has reset. */
  function Retired(eois: Stack<Eoi>, onMaster: bool): multiset<nat> {
    match eois
    case Bottom => multiset{}
    case On(e, under) =>
      Retired(under, onMaster) + if e.onMaster == onMaster && e.reset.Some? then multiset{e.reset.value.id} else multiset{}
  }

  /** The acknowledgements that set a master bit, each once. */
  function SetByMaster(acked: Stack<Acknowledgement>): multiset<nat> {
    match acked
    case Bottom => multiset{}
    case On(a, under) =>
      SetByMaster(under) + if a.genuine || a.irq == 15 then multiset{under.Depth()} else multiset{}
  }

  function SetBySlave(acked: Stack<Acknowledgement>): multiset<nat> {
    match acked
    case Bottom => multiset{}
    case On(a, under) =>
      SetBySlave(under) + if a.genuine && a.irq > 7 then multiset{under.Depth()} else multiset{}
  }

  // ---- The invariant

  predicate FrameOk(f: Frame) {
    && f.irq != CASCADE
    && (!f.genuine ==> f.irq in {7, 15})
    && (f.pc in {Handler, MasterEoi, SlaveEoi} ==> f.genuine)
    && (f.pc == SlaveEoi ==> f.irq > 7)
    && (f.pc == CascadeEoi ==> f.irq == 15 && !f.genuine)
  }

  predicate FramesOk(frames: Stack<Frame>) {
    frames.On? ==> FrameOk(frames.top) && FramesOk(frames.under)
  }

  /** A chip's in-service bits are exactly its debts, in strictly rising priority,
      and with what it retired they account for every bit it ever set. */
  predicate Balanced(inService: map<Level, nat>, debts: Stack<Debt>, retired: multiset<nat>, acquired: multiset<nat>) {
    && Rising(debts)
    && inService == Register(debts)
    && retired + Ids(debts) == acquired
  }

  predicate Inv(s: State) {
    && FramesOk(s.frames)
    && Balanced(s.master.inService, MasterDebts(s.frames), Retired(s.eois, true), SetByMaster(s.acked))
    && Balanced(s.slave.inService, SlaveDebts(s.frames), Retired(s.eois, false), SetBySlave(s.acked))
  }

  // ---- One step

  /** The events after which the debts still match the chips. */
  predicate Sound(v: Version, s: State, e: Event)
    requires Enabled(s, e)
  {
    match e
    case Check => CheckSound(v, s)
    case WriteSlaveEoi => v == Repaired
    case _ => true
  }

  /** A genuine interrupt must be BUS_INUSE; a spurious one must pass the test (or have
      no handler that would run), and as written a spurious 15 leaves the cascade bit
      behind. */
  predicate CheckSound(v: Version, s: State)
    requires s.frames.On?
  {
    var f := s.frames.top;
    if f.genuine then f.irq in s.inUse
    else if f.irq == 7 then TakenAsSpurious(v, s.master) || 7 !in s.inUse
    else v == Repaired && TakenAsSpurious(v, s.slave)
  }

  lemma IncurDebt(chip: Chip, debts: Stack<Debt>, d: Debt, retired: multiset<nat>, acquired: multiset<nat>)
    requires Balanced(chip.inService, debts, retired, acquired) && chip.Above(d.level)
    ensures Balanced(chip.inService[d.level := d.id], On(d, debts), retired, acquired + multiset{d.id})
  {
    assert forall l | l in Register(debts) :: l in chip.inService.Keys;
  }

  /** The bit that the debt's acknowledgement set was in service, and it alone is reset. */
  predicate PaidOwn(before: Chip, after: Chip, d: Debt) {
    && Resets(before) == Some(d)
    && d.level in before.inService && before.inService[d.level] == d.id
    && after.inService == before.inService - {d.level}
  }

  /** Paying the top debt is what a non-specific EOI does. */
  lemma EoiPaysTop(chip: Chip, d: Debt, rest: Stack<Debt>, retired: multiset<nat>, acquired: multiset<nat>)
    requires Balanced(chip.inService, On(d, rest), retired, acquired)
    ensures chip.inService != map[] && chip.Victim() == d.level && chip.inService[d.level] == d.id
    ensures PaidOwn(chip, chip.NonSpecificEoi(), d)
    ensures Balanced(chip.NonSpecificEoi().inService, rest, retired + chip.Retires(), acquired)
  {
    var reg := Register(rest);
    assert chip.inService == reg[d.level := d.id];
    assert d.level in chip.inService;
    var victim := chip.Victim();
    assert victim == d.level || victim in reg;
    assert reg[d.level := d.id] - {d.level} == reg;
  }

  /** A frame that stops owing without an EOI leaves a bit nobody will reset. */
  lemma DroppedDebtBreaks(inService: map<Level, nat>, d: Debt, rest: Stack<Debt>, retired: multiset<nat>, acquired: multiset<nat>)
    requires Balanced(inService, On(d, rest), retired, acquired)
    ensures inService != Register(rest)
  {
    assert d.level in inService;
  }

  /** What acknowledging does to a chip: nothing, or one bit above all others. */
  predicate Incurs(before: Chip, after: Chip, owes: bool, d: Debt) {
    if !owes then after.inService == before.inService
    else before.Above(d.level) && after.inService == before.inService[d.level := d.id]
  }

  /** `s'` is `s` after the acknowledgement that pushed `f`. */
  predicate Pushed(s: State, s': State, f: Frame) {
    && FrameOk(f) && f.pc == Entry && f.id == s.acked.Depth()
    && s'.frames == On(f, s.frames) && s'.acked == On(Acknowledgement(f.irq, f.genuine), s.acked)
    && s'.eois == s.eois
    && Incurs(s.master, s'.master, OwesMaster(f), MasterDebt(f))
    && Incurs(s.slave, s'.slave, OwesSlave(f), if f.irq > 7 then SlaveDebt(f) else MasterDebt(f))
  }

  lemma AckPushes(s: State, s': State)
    requires s' == Acknowledge(s)
    ensures s'.frames.On? && Pushed(s, s', s'.frames.top)
  {
  }

  /** A request that INTA may answer: unmasked, and above everything in service. */
  predicate Open(chip: Chip, r: Level) {
    r in chip.requested && r !in chip.masked && forall q | q in chip.inService :: r < q
  }

  /** INTA answers the open request of highest priority, on the slave if that is the cascade,
      takes it and turns IF off; only if there is none does it give a spurious 7, or 15 for the
      slave. */
  lemma AckTakesHighest(s: State, s': State, r: Level)
    requires s' == Acknowledge(s)
    ensures s'.TopAt(Entry) && !s'.iflag && s'.frames.under == s.frames
    ensures var f := s'.frames.top;
            && (f.irq == 7 && !f.genuine ==> !Open(s.master, r))
            && (Open(s.master, r) ==> (if f.irq < 8 then f.irq else CASCADE) <= r)
            && (f.irq < 8 && f.genuine ==>
                  Open(s.master, f.irq) && s'.master.requested == s.master.requested - {f.irq} && s'.slave == s.slave)
            && (f.irq > 7 ==> Open(s.master, CASCADE) && s'.master.requested == s.master.requested - {CASCADE})
            && (f.irq > 7 && f.genuine ==>
                  && Open(s.slave, f.irq - 8) && s'.slave.requested == s.slave.requested - {f.irq - 8}
                  && (Open(s.slave, r) ==> f.irq - 8 <= r))
            && (f.irq > 7 && !f.genuine ==> f.irq == 15 && !Open(s.slave, r) && s'.slave == s.slave)
  {
    assert Open(s.master, r) <==> r in s.master.Eligible();
    assert Open(s.slave, r) <==> r in s.slave.Eligible();
  }

  /** Acknowledging keeps the invariant whatever arrives. */
  lemma AckKeepsInv(s: State, s': State, f: Frame)
    requires Inv(s) && Pushed(s, s', f)
    ensures Inv(s')
  {
    if OwesMaster(f) {
      IncurDebt(s.master, MasterDebts(s.frames), MasterDebt(f), Retired(s.eois, true), SetByMaster(s.acked));
    }
    if OwesSlave(f) {
      IncurDebt(s.slave, SlaveDebts(s.frames), SlaveDebt(f), Retired(s.eois, false), SetBySlave(s.acked));
    }
  }

  /** Moving the top frame on keeps the invariant exactly when the frame is still well
      formed and owes each chip as before. */
  lemma MoveExact(s: State, s': State, f: Frame)
    requires Inv(s) && s.frames.On? && s'.frames == On(f, s.frames.under) && s'.acked == s.acked
    requires f == s.frames.top.(pc := f.pc)
    requires s'.master == s.master && s'.slave.inService == s.slave.inService && s'.eois == s.eois
    requires FrameOk(f) && OwesMaster(f) ==> OwesMaster(s.frames.top)
    requires FrameOk(f) && OwesSlave(f) ==> OwesSlave(s.frames.top)
    ensures Inv(s') <==> FrameOk(f) && OwesMaster(f) == OwesMaster(s.frames.top) && OwesSlave(f) == OwesSlave(s.frames.top)
  {
    var top, under := s.frames.top, s.frames.under;
    if FrameOk(f) && OwesMaster(f) != OwesMaster(top) {
      DroppedDebtBreaks(s.master.inService, MasterDebt(top), MasterDebts(under), Retired(s.eois, true), SetByMaster(s.acked));
    }
    if FrameOk(f) && OwesSlave(f) != OwesSlave(top) {
      DroppedDebtBreaks(s.slave.inService, SlaveDebt(top), SlaveDebts(under), Retired(s.eois, false), SetBySlave(s.acked));
    }
  }

  /** A frame that owes a chip has its bit set there. */
  lemma OwingHasBit(s: State)
    requires Inv(s) && s.frames.On?
    ensures OwesMaster(s.frames.top) ==> MasterDebt(s.frames.top).level in s.master.inService
    ensures OwesSlave(s.frames.top) ==> SlaveDebt(s.frames.top).level in s.slave.inService
  {
  }

  lemma CheckPcExact(v: Version, s: State, f: Frame)
    requires s.TopAt(Entry) && FrameOk(s.frames.top) && f == s.frames.top.(pc := CheckPc(v, s))
    requires OwesMaster(s.frames.top) ==> MasterDebt(s.frames.top).level in s.master.inService
    requires OwesSlave(s.frames.top) ==> SlaveDebt(s.frames.top).level in s.slave.inService
    ensures CheckSound(v, s) <==>
            FrameOk(f) && OwesMaster(f) == OwesMaster(s.frames.top) && OwesSlave(f) == OwesSlave(s.frames.top)
    ensures FrameOk(f) ==> (OwesMaster(f) ==> OwesMaster(s.frames.top)) && (OwesSlave(f) ==> OwesSlave(s.frames.top))
  {
  }

  lemma CheckExact(v: Version, s: State, s': State, f: Frame)
    requires Inv(s) && s.TopAt(Entry) && f == s.frames.top.(pc := CheckPc(v, s))
    requires s' == s.(frames := On(f, s.frames.under), iflag := s'.iflag)
    ensures Inv(s') <==> CheckSound(v, s)
  {
    OwingHasBit(s);
    CheckPcExact(v, s, f);
    MoveExact(s, s', f);
  }

  /** The top frame's EOI to the master, whatever else its write changes. */
  lemma MasterEoiRetiresOwn(s: State, s': State, f: Frame)
    requires Inv(s) && s.frames.On? && s'.frames == On(f, s.frames.under) && s'.acked == s.acked
    requires FrameOk(f) && OwesMaster(s.frames.top) && !OwesMaster(f)
    requires f == s.frames.top.(pc := f.pc) && OwesSlave(f) == OwesSlave(s.frames.top)
    requires s'.master == s.master.NonSpecificEoi() && s'.eois == On(Eoi(f.id, true, Resets(s.master)), s.eois)
    requires s'.slave == s.slave
    ensures Inv(s')
    ensures PaidOwn(s.master, s'.master, MasterDebt(f))
  {
    OneMoreEoi(s.eois, s.master, f.id, true, true);
    OneMoreEoi(s.eois, s.master, f.id, true, false);
    var under := s.frames.under;
    assert FramesOk(s'.frames) && SlaveDebts(s'.frames) == SlaveDebts(s.frames);
    assert MasterDebts(s.frames) == On(MasterDebt(f), MasterDebts(under)) && MasterDebts(s'.frames) == MasterDebts(under);
    EoiPaysTop(s.master, MasterDebt(f), MasterDebts(s.frames.under), Retired(s.eois, true), SetByMaster(s.acked));
  }

  /** Whose bit the top frame's EOI would reset. */
  lemma ResetsOwn(s: State, top: Frame)
    requires Inv(s) && s.frames.On? && top == s.frames.top
    ensures FrameOk(top)
    ensures OwesMaster(top) ==> Resets(s.master) == Some(MasterDebt(top))
    ensures OwesSlave(top) ==> Resets(s.slave) == Some(SlaveDebt(top))
  {
    if OwesMaster(top) {
      EoiPaysTop(s.master, MasterDebt(top), MasterDebts(s.frames.under), Retired(s.eois, true), SetByMaster(s.acked));
    }
    if OwesSlave(top) {
      EoiPaysTop(s.slave, SlaveDebt(top), SlaveDebts(s.frames.under), Retired(s.eois, false), SetBySlave(s.acked));
    }
  }

  lemma OneMoreEoi(eois: Stack<Eoi>, chip: Chip, sender: nat, onMaster: bool, m: bool)
    ensures Retired(On(Eoi(sender, onMaster, Resets(chip)), eois), m) ==
            Retired(eois, m) + if m == onMaster then chip.Retires() else multiset{}
  {
  }

  lemma SameMasterDebts(frames: Stack<Frame>, f: Frame)
    requires frames.On? && FramesOk(frames) && FrameOk(f) && f == frames.top.(pc := f.pc)
    requires OwesMaster(f) == OwesMaster(frames.top)
    ensures FramesOk(On(f, frames.under)) && MasterDebts(On(f, frames.under)) == MasterDebts(frames)
  {
  }

  lemma TopSlaveDebt(frames: Stack<Frame>, f: Frame)
    requires frames.On? && f == frames.top.(pc := f.pc) && OwesSlave(frames.top)
    ensures SlaveDebts(frames) == On(SlaveDebt(f), SlaveDebts(frames.under))
    ensures !OwesSlave(f) ==> SlaveDebts(On(f, frames.under)) == SlaveDebts(frames.under)
  {
  }

  lemma SlaveEoiRetiresOwn(s: State, s': State, f: Frame)
    requires Inv(s) && s.frames.On? && s'.frames == On(f, s.frames.under) && s'.acked == s.acked
    requires FrameOk(f) && OwesSlave(s.frames.top) && !OwesSlave(f)
    requires f == s.frames.top.(pc := f.pc) && OwesMaster(f) == OwesMaster(s.frames.top)
    requires s'.slave == s.slave.NonSpecificEoi() && s'.eois == On(Eoi(f.id, false, Resets(s.slave)), s.eois)
    requires s'.master == s.master
    ensures Inv(s')
    ensures PaidOwn(s.slave, s'.slave, SlaveDebt(f))
  {
    OneMoreEoi(s.eois, s.slave, f.id, false, true);
    OneMoreEoi(s.eois, s.slave, f.id, false, false);
    SameMasterDebts(s.frames, f);
    TopSlaveDebt(s.frames, f);
    EoiPaysTop(s.slave, SlaveDebt(f), SlaveDebts(s.frames.under), Retired(s.eois, false), SetBySlave(s.acked));
  }

  /** Request lines, IF and acquisitions do not touch what is owed. */
  lemma LinesKeepInv(s: State, s': State)
    requires Inv(s) && s'.master.inService == s.master.inService && s'.slave.inService == s.slave.inService
    requires s' == s.(master := s'.master, slave := s'.slave, iflag := s'.iflag, inUse := s'.inUse)
    ensures Inv(s')
  {
  }

  lemma SlaveEoiExact(v: Version, s: State, s': State)
    requires Inv(s) && s.TopAt(SlaveEoi) && s' == SlaveEoiStep(v, s)
    ensures Inv(s') <==> v == Repaired
  {
    if v == Repaired { SlaveEoiRetiresOwn(s, s', s'.frames.top); } else { MoveExact(s, s', s'.frames.top); }
  }

  lemma ReturnKeepsInv(s: State, s': State)
    requires Inv(s) && s.TopAt(Iret) && s' == s.(frames := s.frames.under, iflag := true)
    ensures Inv(s')
  {
  }

  /** From every state where the debts match the chips, a step keeps them matching
      exactly when it is sound for the version of the code that takes it. */
  lemma StepExact(v: Version, s: State, e: Event, s': State)
    requires Inv(s) && Enabled(s, e) && s' == Step(v, s, e)
    ensures Inv(s') <==> Sound(v, s, e)
  {
    match e
    case Ack => AckPushes(s, s'); AckKeepsInv(s, s', s'.frames.top);
    case Check => CheckExact(v, s, s', s'.frames.top);
    case HandlerReturns => MoveExact(s, s', s'.frames.top);
    case WriteMasterEoi => MasterEoiRetiresOwn(s, s', s'.frames.top);
    case WriteSlaveEoi => SlaveEoiExact(v, s, s');
    case ReturnFromInterrupt => ReturnKeepsInv(s, s');
    case _ => LinesKeepInv(s, s');
  }
}
