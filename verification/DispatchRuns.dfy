/** What the dispatcher keeps over whole runs, under every interleaving. */
module DispatchRuns {
  import opened Text
  import opened Basics
  import opened Pic8259
  import opened Stacks
  import opened Dispatch

  /** What the environment must respect, visible at the INTA cycle: a genuine interrupt
      is BUS_INUSE, a spurious one will pass the dispatcher's test, and as written the
      slave stays silent. */
  predicate Fair(v: Version, s: State, e: Event) {
    e == Ack ==> FairAck(v, Acknowledge(s))
  }

  predicate FairAck(v: Version, s': State) {
    s'.frames.On? && CheckSound(v, s') && (v == AsWritten ==> s'.frames.top.irq < 8)
  }

  ghost predicate Legal(v: Version, s: State, es: seq<Event>)
    decreases |es|
  {
    es != [] ==> Enabled(s, es[0]) && Legal(v, Step(v, s, es[0]), es[1..])
  }

  ghost function Run(v: Version, s: State, es: seq<Event>): State
    requires Legal(v, s, es)
    decreases |es|
  {
    if es == [] then s else Run(v, Step(v, s, es[0]), es[1..])
  }

  ghost predicate FairRun(v: Version, s: State, es: seq<Event>)
    requires Legal(v, s, es)
    decreases |es|
  {
    es != [] ==> Fair(v, s, es[0]) && FairRun(v, Step(v, s, es[0]), es[1..])
  }

  /** Frames that something else interrupted had interrupts on. */
  predicate Interrupted(frames: Stack<Frame>) {
    frames.On? ==> frames.top.pc !in {Entry, CascadeEoi} && Interrupted(frames.under)
  }

  predicate OnMasterOnly(frames: Stack<Frame>) {
    frames.On? ==> frames.top.irq < 8 && OnMasterOnly(frames.under)
  }

  /** Only a frame that runs with interrupts on is ever interrupted, and a frame that
      runs with them off still sees what its acknowledgement left. */
  predicate Masking(v: Version, s: State) {
    && (s.frames.On? ==> Interrupted(s.frames.under))
    && (s.iflag ==> Interrupted(s.frames))
    && (s.TopAt(Entry) ==> CheckSound(v, s))
    && (s.TopAt(CascadeEoi) ==> SPURIOUS !in s.slave.inService)
    && (v == AsWritten ==> OnMasterOnly(s.frames))
  }

  predicate Good(v: Version, s: State) {
    Inv(s) && Masking(v, s)
  }

  lemma AckMasks(v: Version, s: State, s': State)
    requires Masking(v, s) && s.iflag && s' == Acknowledge(s) && FairAck(v, s')
    ensures Masking(v, s')
  {
  }

  lemma StepMasks(v: Version, s: State, e: Event, s': State)
    requires Masking(v, s) && Enabled(s, e) && Fair(v, s, e) && s' == Step(v, s, e)
    ensures Masking(v, s')
  {
    match e
    case Ack => AckMasks(v, s, s');
    case _ =>
  }

  lemma StepSafe(v: Version, s: State, e: Event, s': State)
    requires Good(v, s) && Enabled(s, e) && Fair(v, s, e) && s' == Step(v, s, e)
    ensures Good(v, s')
  {
    StepMasks(v, s, e, s');
    assert Sound(v, s, e) by {
      if e == WriteSlaveEoi { assert FrameOk(s.frames.top); }
    }
    StepExact(v, s, e, s');
  }

  /** In every state that any interleaving reaches, the frames still owing an EOI have
      strictly rising priority and are exactly the in-service bits. */
  lemma {:induction false} RunSafe(v: Version, s: State, es: seq<Event>)
    requires Good(v, s) && Legal(v, s, es) && FairRun(v, s, es)
    ensures Good(v, Run(v, s, es))
    decreases |es|
  {
    if es != [] {
      var s' := Step(v, s, es[0]);
      StepSafe(v, s, es[0], s');
      RunSafe(v, s', es[1..]);
    }
  }

  /** Unfairness shows: once the CPU has acknowledged such an interrupt, the dispatcher's
      own check loses the match between frames and in-service bits. */
  lemma UnfairAckBreaks(v: Version, s: State, s1: State, s2: State)
    requires Good(v, s) && s.iflag && s1 == Acknowledge(s) && s1.frames.On? && !CheckSound(v, s1)
    requires s1.TopAt(Entry) && s2 == Step(v, s1, Check)
    ensures !Inv(s2)
  {
    AckPushes(s, s1);
    AckKeepsInv(s, s1, s1.frames.top);
    StepExact(v, s1, Check, s2);
  }

  // ---- Conservation

  /** The acknowledgement with identifier `id`. */
  function Acknowledged(acked: Stack<Acknowledgement>, id: nat): Acknowledgement
    requires id < acked.Depth()
  {
    if id == acked.under.Depth() then acked.top else Acknowledged(acked.under, id)
  }

  lemma SetOnce(acked: Stack<Acknowledgement>, id: nat)
    ensures SetByMaster(acked)[id] ==
            if id < acked.Depth() && (Acknowledged(acked, id).genuine || Acknowledged(acked, id).irq == 15) then 1 else 0
    ensures SetBySlave(acked)[id] ==
            if id < acked.Depth() && Acknowledged(acked, id).genuine && Acknowledged(acked, id).irq > 7 then 1 else 0
  {
    if acked.On? { SetOnce(acked.under, id); }
  }

  /** The frames are those of their acknowledgements. */
  predicate Recorded(frames: Stack<Frame>, acked: Stack<Acknowledgement>) {
    frames.On? ==>
      && frames.top.id < acked.Depth()
      && Acknowledged(acked, frames.top.id) == Acknowledgement(frames.top.irq, frames.top.genuine)
      && Recorded(frames.under, acked)
  }

  /** An EOI that reset the very bit which its sender's acknowledgement `a` had set. Nobody
      else sends one: not a spurious 7, and a spurious 15 none to the slave. */
  predicate OwnBit(e: Eoi, a: Acknowledgement) {
    if e.onMaster then
      (a.genuine || a.irq == 15) && e.reset == Some(Debt(if a.irq < 8 then a.irq else CASCADE, e.sender))
    else
      a.genuine && a.irq > 7 && e.reset == Some(Debt(a.irq - 8, e.sender))
  }

  predicate AllOwn(eois: Stack<Eoi>, acked: Stack<Acknowledgement>) {
    eois.On? ==>
      && eois.top.sender < acked.Depth()
      && OwnBit(eois.top, Acknowledged(acked, eois.top.sender))
      && AllOwn(eois.under, acked)
  }

  lemma OneMoreAck(frames: Stack<Frame>, eois: Stack<Eoi>, acked: Stack<Acknowledgement>, a: Acknowledgement)
    ensures Recorded(frames, acked) ==> Recorded(frames, On(a, acked))
    ensures AllOwn(eois, acked) ==> AllOwn(eois, On(a, acked))
  {
    if frames.On? { OneMoreAck(frames.under, eois, acked, a); }
    if eois.On? { OneMoreAck(frames, eois.under, acked, a); }
  }

  lemma EoiOwn(s: State, s': State, top: Frame, onMaster: bool)
    requires FrameOk(top) && s.frames.On? && top == s.frames.top
    requires if onMaster then OwesMaster(top) && Resets(s.master) == Some(MasterDebt(top)) && s' == MasterEoiStep(s)
             else OwesSlave(top) && Resets(s.slave) == Some(SlaveDebt(top)) && s' == SlaveEoiStep(Repaired, s)
    requires Recorded(s.frames, s.acked) && AllOwn(s.eois, s.acked)
    ensures Recorded(s'.frames, s'.acked) && AllOwn(s'.eois, s'.acked)
  {
  }

  lemma AckOwn(s: State, s': State)
    requires s' == Acknowledge(s) && Recorded(s.frames, s.acked) && AllOwn(s.eois, s.acked)
    ensures Recorded(s'.frames, s'.acked) && AllOwn(s'.eois, s'.acked)
  {
    AckPushes(s, s');
    OneMoreAck(s.frames, s.eois, s.acked, s'.acked.top);
  }

  lemma StepOwn(v: Version, s: State, e: Event, s': State)
    requires Good(v, s) && Enabled(s, e) && Fair(v, s, e) && s' == Step(v, s, e)
    requires Recorded(s.frames, s.acked) && AllOwn(s.eois, s.acked)
    ensures Recorded(s'.frames, s'.acked) && AllOwn(s'.eois, s'.acked)
  {
    match e
    case Ack => AckOwn(s, s');
    case WriteMasterEoi =>
      ResetsOwn(s, s.frames.top);
      EoiOwn(s, s', s.frames.top, true);
    case WriteSlaveEoi =>
      ResetsOwn(s, s.frames.top);
      if v == Repaired { EoiOwn(s, s', s.frames.top, false); }
    case _ =>
  }

  /** In any fair run from reset every EOI resets the bit of the dispatch that sent it. */
  lemma {:induction false} EoisOwn(v: Version, s: State, es: seq<Event>)
    requires Good(v, s) && Legal(v, s, es) && FairRun(v, s, es)
    requires Recorded(s.frames, s.acked) && AllOwn(s.eois, s.acked)
    ensures var s' := Run(v, s, es); Recorded(s'.frames, s'.acked) && AllOwn(s'.eois, s'.acked)
    decreases |es|
  {
    if es != [] {
      var s1 := Step(v, s, es[0]);
      StepOwn(v, s, es[0], s1);
      StepSafe(v, s, es[0], s1);
      EoisOwn(v, s1, es[1..]);
    }
  }

  /** The acknowledgements whose frames wrote an EOI to one chip. */
  function Sent(eois: Stack<Eoi>, onMaster: bool): multiset<nat> {
    match eois
    case Bottom => multiset{}
    case On(e, under) => Sent(under, onMaster) + if e.onMaster == onMaster then multiset{e.sender} else multiset{}
  }

  lemma SentIsRetired(eois: Stack<Eoi>, acked: Stack<Acknowledgement>, onMaster: bool)
    requires AllOwn(eois, acked)
    ensures Sent(eois, onMaster) == Retired(eois, onMaster)
  {
    if eois.On? { SentIsRetired(eois.under, acked, onMaster); }
  }

  /** Over any fair run from reset each EOI resets its sender's own bit, no dispatch sends a
      chip two, and when the frame stack is empty again each has sent exactly those it owed:
      a spurious 7 none, a spurious 15 one to the master, which reset the cascade bit, a
      genuine interrupt one to the master and, above 7, one to the slave; and nothing is in
      service. */
  lemma Conservation(v: Version, inUse: set<Irq>, es: seq<Event>, id: nat)
    requires Legal(v, Initial(inUse), es) && FairRun(v, Initial(inUse), es)
    requires id < Run(v, Initial(inUse), es).acked.Depth()
    ensures var s := Run(v, Initial(inUse), es);
            var a := Acknowledged(s.acked, id);
            var toMaster, toSlave := Sent(s.eois, true)[id], Sent(s.eois, false)[id];
            && AllOwn(s.eois, s.acked)
            && toMaster <= 1 && toSlave <= 1
            && (!a.genuine ==> toSlave == 0 && (a.irq == 7 ==> toMaster == 0))
            && (s.frames == Bottom ==>
                  && s.master.inService == map[] && s.slave.inService == map[]
                  && (a.genuine ==> toMaster == 1 && toSlave == if a.irq > 7 then 1 else 0)
                  && (!a.genuine ==> toMaster == if a.irq == 15 then 1 else 0))
  {
    var s0 := Initial(inUse);
    assert Good(v, s0);
    RunSafe(v, s0, es);
    EoisOwn(v, s0, es);
    var s := Run(v, s0, es);
    SetOnce(s.acked, id);
    SentIsRetired(s.eois, s.acked, true);
    SentIsRetired(s.eois, s.acked, false);
    assert Retired(s.eois, true)[id] + Ids(MasterDebts(s.frames))[id] == SetByMaster(s.acked)[id];
    assert Retired(s.eois, false)[id] + Ids(SlaveDebts(s.frames))[id] == SetBySlave(s.acked)[id];
  }

  /** A genuine IRQ 7 or 15 is never taken for a spurious one. */
  lemma GenuineNeverSpurious(v: Version, s: State)
    requires Inv(s) && s.TopAt(Entry) && s.frames.top.genuine
    ensures s.frames.top.irq == 7 ==> !TakenAsSpurious(v, s.master)
    ensures s.frames.top.irq == 15 ==> !TakenAsSpurious(v, s.slave)
    ensures s.frames.top.irq in s.inUse ==> CheckPc(v, s) == Handler
  {
    OwingHasBit(s);
  }

  // ---- At most 15 frames owe an EOI

  predicate Owes(f: Frame) {
    OwesMaster(f) || OwesSlave(f)
  }

  function Owing(frames: Stack<Frame>): nat {
    if frames.Bottom? then 0 else Owing(frames.under) + if Owes(frames.top) then 1 else 0
  }

  function OwingIrqs(frames: Stack<Frame>): set<Irq> {
    if frames.Bottom? then {} else OwingIrqs(frames.under) + if Owes(frames.top) then {frames.top.irq} else {}
  }

  /** An owing frame keeps a bit of its own on the chip its IRQ comes from. */
  lemma OwingShows(frames: Stack<Frame>, irq: Irq)
    requires FramesOk(frames) && Interrupted(frames) && irq in OwingIrqs(frames)
    ensures irq < 8 ==> irq in Register(MasterDebts(frames))
    ensures irq > 7 ==> irq - 8 in Register(SlaveDebts(frames))
    ensures irq != CASCADE
  {
    if irq in OwingIrqs(frames.under) { OwingShows(frames.under, irq); }
  }

  lemma OwingDistinct(frames: Stack<Frame>)
    requires FramesOk(frames) && Interrupted(frames) && Rising(MasterDebts(frames)) && Rising(SlaveDebts(frames))
    ensures Owing(frames) == |OwingIrqs(frames)|
  {
    if frames.On? {
      OwingDistinct(frames.under);
      var irq := frames.top.irq;
      if Owes(frames.top) && irq in OwingIrqs(frames.under) { OwingShows(frames.under, irq); }
    }
  }

  lemma AtMost15(irqs: set<Irq>)
    requires CASCADE !in irqs
    ensures |irqs| <= 15
  {
    var listed := {0, 1, 3, 4, 5, 6, 7, 8, 9, 10, 11, 12, 13, 14, 15};
    assert irqs <= listed;
    SubsetSize(irqs, listed);
  }

  lemma SubsetSize(a: set<Irq>, b: set<Irq>)
    requires a <= b
    ensures |a| <= |b|
  {
    if a != {} {
      var x :| x in a;
      SubsetSize(a - {x}, b - {x});
    }
  }

  lemma TopOwesAlone(v: Version, s: State, irq: Irq)
    requires Good(v, s) && s.frames.On? && Owes(s.frames.top) && irq in OwingIrqs(s.frames.under)
    ensures irq != s.frames.top.irq
  {
    OwingShows(s.frames.under, irq);
    OwingHasBit(s);
  }

  /** At most 15 frames owe an EOI at once. */
  lemma OwingBound(v: Version, s: State)
    requires Good(v, s)
    ensures Owing(s.frames) <= 15
  {
    if s.frames.On? {
      var top, under := s.frames.top, s.frames.under;
      OwingDistinct(under);
      var irqs := OwingIrqs(under);
      if CASCADE in irqs { OwingShows(under, CASCADE); }
      if top.irq in irqs && Owes(top) { TopOwesAlone(v, s, top.irq); }
      assert top.irq != CASCADE;
      AtMost15(irqs);
      AtMost15(irqs + {top.irq});
    }
  }

  // ---- The code as written

  lemma FirstStep(v: Version, s: State, e: Event, s': State, rest: seq<Event>)
    requires Enabled(s, e) && s' == Step(v, s, e) && Legal(v, s', rest)
    ensures Legal(v, s, [e] + rest) && Run(v, s, [e] + rest) == Run(v, s', rest)
  {
    assert ([e] + rest)[1..] == rest;
  }

  const SLAVE_END := [WriteSlaveEoi] + ([ReturnFromInterrupt] + [])
  const FINISH := [HandlerReturns] + ([WriteMasterEoi] + SLAVE_END)

  lemma EndSlave(v: Version, s: State, f: Frame, level: Level)
    requires s.frames == On(f, Bottom) && f.pc == SlaveEoi && f.irq == 8 + level
    requires s.master.inService == map[] && s.slave.inService == map[level := f.id]
    ensures Legal(v, s, SLAVE_END)
    ensures var s' := Run(v, s, SLAVE_END);
            && s'.frames == Bottom && s'.master.inService == map[]
            && s'.slave.inService == (if v == AsWritten then map[level := f.id] else map[])
            && s'.slave.masked == if v == AsWritten then {5} else s.slave.masked
  {
    var s1 := Step(v, s, WriteSlaveEoi);
    assert v == Repaired ==> s1.slave.inService == map[];
    FirstStep(v, s1, ReturnFromInterrupt, Step(v, s1, ReturnFromInterrupt), []);
    FirstStep(v, s, WriteSlaveEoi, s1, [ReturnFromInterrupt] + []);
  }

  /** A slave handler that is left to finish: as written its own bit stays. */
  lemma FinishSlave(v: Version, s: State, f: Frame, level: Level)
    requires s.frames == On(f, Bottom) && f.pc == Handler && f.irq == 8 + level
    requires s.master.inService == map[CASCADE := f.id] && s.slave.inService == map[level := f.id]
    ensures Legal(v, s, FINISH)
    ensures var s' := Run(v, s, FINISH);
            && s'.frames == Bottom && s'.master.inService == map[]
            && s'.slave.inService == (if v == AsWritten then map[level := f.id] else map[])
            && s'.slave.masked == if v == AsWritten then {5} else s.slave.masked
  {
    var s1 := Step(v, s, HandlerReturns);
    var s2 := MasterEoiStep(s1);
    assert s2.master.inService == map[];
    EndSlave(v, s2, s2.frames.top, level);
    FirstStep(v, s1, WriteMasterEoi, s2, SLAVE_END);
    FirstStep(v, s, HandlerReturns, s1, [WriteMasterEoi] + SLAVE_END);
  }

  function SlaveDispatch(level: Level): seq<Event> {
    [Raise(false, level)] + ([Cascade] + ([Ack] + ([Check] + FINISH)))
  }

  /** As written, one undisturbed slave interrupt leaves its in-service bit set with no
      frame left to reset it, and IRQ 13 masked by the byte that was meant as an EOI; repaired,
      both chips are clear again. */
  lemma SlaveEoiPort(v: Version, level: Level)
    ensures var s := Initial({8 + level});
            && Legal(v, s, SlaveDispatch(level))
            && var s' := Run(v, s, SlaveDispatch(level));
            && s'.frames == Bottom && s'.master.inService == map[]
            && s'.slave.inService == (if v == AsWritten then map[level := 0] else map[])
            && s'.slave.masked == if v == AsWritten then {5} else {}
  {
    var s := Initial({8 + level});
    var s1 := Step(v, s, Raise(false, level));
    assert s1.slave.Eligible() == {level};
    var s2 := Step(v, s1, Cascade);
    assert s2.master.Eligible() == {CASCADE};
    var s3 := Step(v, s2, Ack);
    var s4 := Step(v, s3, Check);
    FinishSlave(v, s4, s4.frames.top, level);
    FirstStep(v, s3, Check, s4, FINISH);
    FirstStep(v, s2, Ack, s3, [Check] + FINISH);
    FirstStep(v, s1, Cascade, s2, [Ack] + ([Check] + FINISH));
    FirstStep(v, s, Raise(false, level), s1, [Cascade] + ([Ack] + ([Check] + FINISH)));
  }

  /** No acknowledgement numbered `from` or later was of a slave IRQ at or below `stuck`. */
  predicate Silent(acked: Stack<Acknowledgement>, from: nat, stuck: Level) {
    acked.Depth() > from ==>
      && !(acked.top.genuine && acked.top.irq >= 8 + stuck)
      && Silent(acked.under, from, stuck)
  }

  lemma StuckStep(s: State, e: Event, s': State, from: nat, stuck: Level)
    requires Enabled(s, e) && s' == Step(AsWritten, s, e)
    requires stuck in s.slave.inService && Silent(s.acked, from, stuck)
    ensures stuck in s'.slave.inService && Silent(s'.acked, from, stuck)
  {
    if e == Ack && s.slave.Eligible() != {} {
      assert stuck in s.slave.inService.Keys;
      assert Least(s.slave.Eligible(), 0) < stuck;
    }
  }

  /** As written, no run resets a slave bit that is in service, and in no run is that IRQ or
      one of lower priority on the slave ever acknowledged again. */
  lemma {:induction false} StuckBitSilences(s: State, es: seq<Event>, from: nat, stuck: Level)
    requires Legal(AsWritten, s, es) && stuck in s.slave.inService && Silent(s.acked, from, stuck)
    ensures var s' := Run(AsWritten, s, es); stuck in s'.slave.inService && Silent(s'.acked, from, stuck)
    decreases |es|
  {
    if es != [] {
      StuckStep(s, es[0], Step(AsWritten, s, es[0]), from, stuck);
      StuckBitSilences(Step(AsWritten, s, es[0]), es[1..], from, stuck);
    }
  }

  lemma NothingNew(acked: Stack<Acknowledgement>, stuck: Level)
    ensures Silent(acked, acked.Depth(), stuck)
  {
  }

  /** So as written one slave interrupt, however long the machine then runs, is the last of
      its level and of every lower one on the slave. */
  lemma LastOfItsLevel(level: Level, es: seq<Event>)
    requires Legal(AsWritten, Initial({8 + level}), SlaveDispatch(level))
    requires Legal(AsWritten, Run(AsWritten, Initial({8 + level}), SlaveDispatch(level)), es)
    ensures var after := Run(AsWritten, Initial({8 + level}), SlaveDispatch(level));
            Silent(Run(AsWritten, after, es).acked, after.acked.Depth(), level)
  {
    SlaveEoiPort(AsWritten, level);
    var after := Run(AsWritten, Initial({8 + level}), SlaveDispatch(level));
    NothingNew(after.acked, level);
    StuckBitSilences(after, es, after.acked.Depth(), level);
  }

  /** As written, a spurious 15 is answered with no EOI, so the master's cascade bit
      outlives the frame and every IRQ above 7 stays shut out. */
  lemma SpuriousFifteen(v: Version, s: State)
    requires Inv(s) && s.TopAt(Entry) && s.frames.top.irq == 15 && !s.frames.top.genuine
    requires TakenAsSpurious(v, s.slave)
    ensures CASCADE in s.master.inService
    ensures var s' := Step(v, s, Check);
            && CASCADE in s'.master.inService
            && (v == AsWritten ==> s'.TopAt(Iret) && !Inv(s'))
            && (v == Repaired ==> s'.TopAt(CascadeEoi) && Inv(s'))
  {
    OwingHasBit(s);
    StepExact(v, s, Check, Step(v, s, Check));
  }

  /** The whole-byte test and the bit test agree on a spurious 7 exactly when the
      master has nothing in service, or has 7 itself. */
  lemma SpuriousTests(chip: Chip)
    ensures TakenAsSpurious(AsWritten, chip) == TakenAsSpurious(Repaired, chip) <==>
            chip.inService == map[] || SPURIOUS in chip.inService
  {
    assert chip.inService.Keys == {} <==> chip.inService == map[];
  }

  /** The difference matters: as written, a spurious 7 that finds IRQ `p` in service runs
      the handler of IRQ 7 and its EOI resets the bit of the dispatch it interrupted. */
  lemma SpuriousSevenStealsEoi(s: State, s': State, p: Level)
    requires Inv(s) && s.TopAt(Entry) && s.frames.top.irq == 7 && !s.frames.top.genuine && 7 in s.inUse
    requires s.master.inService != map[] && SPURIOUS !in s.master.inService && p == s.master.Victim()
    requires var s1 := Step(AsWritten, s, Check);
             Enabled(s1, HandlerReturns) && s' == Step(AsWritten, Step(AsWritten, s1, HandlerReturns), WriteMasterEoi)
    ensures p in s.master.inService && s'.master.inService == s.master.inService - {p}
    ensures s'.frames.under == s.frames.under && p in Register(MasterDebts(s'.frames))
    ensures !Inv(s')
  {
    assert CheckPc(AsWritten, s) == Handler;
  }

  // ---- Interrupts during a handler

  /** From reset, an interrupt that arrives while the handler of a lower one runs is taken at
      once: nobody else has to turn interrupts on. */
  lemma HandlerIsInterrupted(v: Version, p: Level, q: Level)
    requires q < p && p != CASCADE && q != CASCADE
    ensures var es := [Raise(true, p)] + ([Ack] + ([Check] + ([Raise(true, q)] + ([Ack] + ([Check] + [])))));
            && Legal(v, Initial({p, q}), es)
            && Run(v, Initial({p, q}), es).frames == On(Frame(1, q, true, Handler), On(Frame(0, p, true, Handler), Bottom))
  {
    var s := Initial({p, q});
    var s1 := Step(v, s, Raise(true, p));
    assert s1.master.Eligible() == {p};
    var s2 := Step(v, s1, Ack);
    assert s2.master.inService.Keys == {p};
    var s3 := Step(v, s2, Check);
    var s4 := Step(v, s3, Raise(true, q));
    assert s4.master.Eligible() == {q};
    var s5 := Step(v, s4, Ack);
    assert q in s5.master.inService.Keys && p in s5.master.inService.Keys;
    var s6 := Step(v, s5, Check);
    FirstStep(v, s5, Check, s6, []);
    FirstStep(v, s4, Ack, s5, [Check] + []);
    FirstStep(v, s3, Raise(true, q), s4, [Ack] + ([Check] + []));
    FirstStep(v, s2, Check, s3, [Raise(true, q)] + ([Ack] + ([Check] + [])));
    FirstStep(v, s1, Ack, s2, [Check] + ([Raise(true, q)] + ([Ack] + ([Check] + []))));
    FirstStep(v, s, Raise(true, p), s1, [Ack] + ([Check] + ([Raise(true, q)] + ([Ack] + ([Check] + [])))));
  }

  /** A request that is withdrawn before INTA is answered as a spurious 7, and on the slave
      as a spurious 15. */
  lemma WithdrawnIsSpurious(v: Version, p: Level)
    ensures p != CASCADE ==>
              var es := [Raise(true, p)] + ([Withdraw(true, p)] + ([Ack] + []));
              && Legal(v, Initial({}), es)
              && Run(v, Initial({}), es).frames == On(Frame(0, 7, false, Entry), Bottom)
    ensures var es := [Raise(false, p)] + ([Cascade] + ([Withdraw(false, p)] + ([Ack] + [])));
            && Legal(v, Initial({}), es)
            && Run(v, Initial({}), es).frames == On(Frame(0, 15, false, Entry), Bottom)
  {
    var s := Initial({});
    if p != CASCADE {
      var s1 := Step(v, s, Raise(true, p));
      var s2 := Step(v, s1, Withdraw(true, p));
      FirstStep(v, s2, Ack, Step(v, s2, Ack), []);
      FirstStep(v, s1, Withdraw(true, p), s2, [Ack] + []);
      FirstStep(v, s, Raise(true, p), s1, [Withdraw(true, p)] + ([Ack] + []));
    }
    var s1 := Step(v, s, Raise(false, p));
    assert s1.slave.Eligible() == {p};
    var s2 := Step(v, s1, Cascade);
    var s3 := Step(v, s2, Withdraw(false, p));
    assert s3.master.Eligible() == {CASCADE} && s3.slave.Eligible() == {};
    FirstStep(v, s3, Ack, Step(v, s3, Ack), []);
    FirstStep(v, s2, Withdraw(false, p), s3, [Ack] + []);
    FirstStep(v, s1, Cascade, s2, [Withdraw(false, p)] + ([Ack] + []));
    FirstStep(v, s, Raise(false, p), s1, [Cascade] + ([Withdraw(false, p)] + ([Ack] + [])));
  }

  /** Handlers and the idle kernel can shut interrupts out, let them in, and take an IRQ. */
  lemma CodeSteps(v: Version, s: State, on: bool, irq: Irq)
    requires Enabled(s, SetIf(on))
    ensures Enabled(Step(v, s, SetIf(on)), Ack) <==> on
    ensures Enabled(s, Acquire(irq)) && Step(v, s, Acquire(irq)).inUse == s.inUse + {irq}
  {
  }

  // ---- One acknowledgement over a run

  lemma {:induction false} AckedKept(v: Version, s: State, es: seq<Event>, id: nat)
    requires Legal(v, s, es) && id < s.acked.Depth()
    ensures var s' := Run(v, s, es);
            id < s'.acked.Depth() && Acknowledged(s'.acked, id) == Acknowledged(s.acked, id)
    decreases |es|
  {
    if es != [] { AckedKept(v, Step(v, s, es[0]), es[1..], id); }
  }

  lemma NotOwing(frames: Stack<Frame>, acked: Stack<Acknowledgement>, id: nat)
    requires Recorded(frames, acked) && id >= acked.Depth()
    ensures Ids(MasterDebts(frames))[id] == 0 && Ids(SlaveDebts(frames))[id] == 0
  {
  }

  /** The acknowledgement `id` has sent exactly the EOIs it owed: one to each chip whose bit
      it set. */
  predicate Paid(s: State, id: nat, a: Acknowledgement) {
    && Sent(s.eois, true)[id] == (if a.genuine || a.irq == 15 then 1 else 0)
    && Sent(s.eois, false)[id] == (if a.genuine && a.irq > 7 then 1 else 0)
  }

  /** Once the frames are again those from before an acknowledgement, it has paid. */
  lemma PaidWhenGone(v: Version, s: State, s': State, es: seq<Event>)
    requires Good(v, s) && Recorded(s.frames, s.acked) && AllOwn(s.eois, s.acked)
    requires Reaches(v, s, es, s') && s'.frames == s.frames && s'.acked.Depth() > s.acked.Depth()
    ensures Paid(s', s.acked.Depth(), Acknowledged(s'.acked, s.acked.Depth()))
  {
    RunSafe(v, s, es);
    EoisOwn(v, s, es);
    SetOnce(s'.acked, s.acked.Depth());
    SentIsRetired(s'.eois, s'.acked, true);
    SentIsRetired(s'.eois, s'.acked, false);
    NotOwing(s.frames, s.acked, s.acked.Depth());
    var id := s.acked.Depth();
    assert Retired(s'.eois, true)[id] + Ids(MasterDebts(s'.frames))[id] == SetByMaster(s'.acked)[id];
    assert Retired(s'.eois, false)[id] + Ids(SlaveDebts(s'.frames))[id] == SetBySlave(s'.acked)[id];
  }

  // ---- Putting runs together

  lemma RunAppend(v: Version, s: State, es: seq<Event>, fs: seq<Event>)
    requires Legal(v, s, es) && Legal(v, Run(v, s, es), fs)
    requires FairRun(v, s, es) && FairRun(v, Run(v, s, es), fs)
    ensures Legal(v, s, es + fs) && FairRun(v, s, es + fs)
    ensures Run(v, s, es + fs) == Run(v, Run(v, s, es), fs)
    decreases |es|
  {
    if es == [] {
      assert es + fs == fs;
    } else {
      assert (es + fs)[1..] == es[1..] + fs;
      RunAppend(v, Step(v, s, es[0]), es[1..], fs);
    }
  }

  /** `es` takes `s` to `s'` under fair acknowledgements. */
  ghost predicate Reaches(v: Version, s: State, es: seq<Event>, s': State) {
    Legal(v, s, es) && FairRun(v, s, es) && Run(v, s, es) == s'
  }

  lemma ReachesTransitive(v: Version, s: State, es: seq<Event>, s': State, fs: seq<Event>, s'': State)
    requires Reaches(v, s, es, s') && Reaches(v, s', fs, s'')
    ensures Reaches(v, s, es + fs, s'')
  {
    RunAppend(v, s, es, fs);
  }

  lemma ReachesByStep(v: Version, s: State, e: Event, s': State)
    requires Enabled(s, e) && Fair(v, s, e) && s' == Step(v, s, e)
    ensures Reaches(v, s, [e], s')
  {
    assert [e][1..] == [];
  }

  /** A run that gives the frames back gives the in-service bits back. */
  lemma SameFramesSameBits(v: Version, s: State, es: seq<Event>, s': State)
    requires Good(v, s) && Reaches(v, s, es, s') && s'.frames == s.frames
    ensures s'.master.inService == s.master.inService && s'.slave.inService == s.slave.inService
  {
    RunSafe(v, s, es);
  }
}
