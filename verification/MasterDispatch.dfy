/** InMasterDispatch and SendEOI as the code runs them: a call inside an interrupt,
    with further interrupts delivered wherever interrupts are on. */
module MasterDispatch {
  import opened Text
  import opened Pic8259
  import opened Stacks
  import opened Dispatch
  import opened DispatchRuns
  import opened DispatchTrace

  const MASTER_COMMAND := 0x20
  const SLAVE_COMMAND := 0xA0
  const SLAVE_MASK := 0xA1

  class Machine {
    var master: Chip
    var slave: Chip
    var iflag: bool
    var frames: Stack<Frame>
    var inUse: set<Irq>
    var acked: Stack<Acknowledgement>
    var eois: Stack<Eoi>

    constructor (inUse: set<Irq>)
      ensures Now() == Initial(inUse)
    {
      master, slave, iflag, frames, this.inUse := RESET, RESET, true, Bottom, inUse;
      acked, eois := Bottom, Bottom;
    }

    function Now(): State
      reads this
    {
      State(master, slave, iflag, frames, inUse, acked, eois)
    }

    /** pic_inb: with OCW3 set as at start-up a command port gives the in-service register. */
    method PicInb(port: nat) returns (b: bv16)
      requires port in {MASTER_COMMAND, SLAVE_COMMAND}
      ensures b == ByteOf((if port == MASTER_COMMAND then master else slave).inService.Keys)
    {
      b := ByteOf(if port == MASTER_COMMAND then master.inService.Keys else slave.inService.Keys);
    }

    /** The WORD's low byte tells about the master, its high byte about the slave. */
    method InGetInService16() returns (w: bv16)
      ensures LowByteClear(w) <==> master.inService == map[]
      ensures HighByteClear(w) <==> slave.inService == map[]
      ensures Bit7Clear(w) <==> SPURIOUS !in master.inService
      ensures Bit15Clear(w) <==> SPURIOUS !in slave.inService
    {
      w := PicInb(MASTER_COMMAND);
      var high := PicInb(SLAVE_COMMAND);
      w := Packed(w, high);
      PackedDecodes(master.inService.Keys, slave.inService.Keys);
    }

    /** pic_outb(port, 0x20), with the sender's place in SendEOI moving on to `pc`. */
    method Write20(port: nat, pc: Pc)
      requires frames.On? && port in {MASTER_COMMAND, SLAVE_COMMAND, SLAVE_MASK}
      modifies this
      ensures port == MASTER_COMMAND ==>
                Now() == old(Now()).At(pc).(master := old(master).NonSpecificEoi(),
                                            eois := On(Eoi(old(frames).top.id, true, Resets(old(master))), old(eois)))
      ensures port == SLAVE_COMMAND ==>
                Now() == old(Now()).At(pc).(slave := old(slave).NonSpecificEoi(),
                                            eois := On(Eoi(old(frames).top.id, false, Resets(old(slave))), old(eois)))
      ensures port == SLAVE_MASK ==>
                Now() == old(Now()).At(pc).(slave := old(slave).(masked := {5}))
    {
      if port == MASTER_COMMAND {
        eois := On(Eoi(frames.top.id, true, Resets(master)), eois);
        master := master.NonSpecificEoi();
      } else if port == SLAVE_COMMAND {
        eois := On(Eoi(frames.top.id, false, Resets(slave)), eois);
        slave := slave.NonSpecificEoi();
      } else {
        slave := slave.(masked := {5});
      }
      frames := On(frames.top.(pc := pc), frames.under);
    }

    /** A stretch of time in which interrupts may be taken. Each one that is runs to its
        iret before the interrupted code goes on. */
    method Pass(v: Version, w: Window) returns (trace: seq<Event>)
      requires frames == Bottom || frames.top.pc != Entry
      modifies this
      ensures Reaches(v, old(Now()), trace, Now()) && Follows(v, old(Now()), w, trace)
      ensures frames == old(frames) && old(inUse) <= inUse
      ensures w.Interrupt? && old(iflag) && old(FairAck(v, Acknowledge(Now()))) ==> trace != [] && trace[0] == Ack
      decreases w
    {
      trace := [];
      match w
      case Shut =>
      case Line(e, rest) =>
        if Admitted(Now(), e) {
          match e {
            case Raise(true, level) => master := master.(requested := master.requested + {level});
            case Raise(false, level) => slave := slave.(requested := slave.requested + {level});
            case Withdraw(true, level) => master := master.(requested := master.requested - {level});
            case Withdraw(false, level) => slave := slave.(requested := slave.requested - {level});
            case Cascade => master := master.(requested := master.requested + {CASCADE});
            case SetIf(on) => iflag := on;
            case Acquire(irq) => inUse := inUse + {irq};
            case _ => assert false;
          }
          ReachesByStep(v, old(Now()), e, Now());
          ghost var mid := Now();
          var more := Pass(v, rest);
          ReachesTransitive(v, old(Now()), [e], mid, more, Now());
          LineThenRest(v, old(Now()), e, rest, more);
          trace := [e] + more;
        } else {
          trace := Pass(v, rest);
        }
      case Interrupt(nested, rest) =>
        if iflag && FairAck(v, Acknowledge(Now())) {
          var first := Deliver(v, nested);
          ghost var mid := Now();
          LegalAfter(v, old(Now()), first);
          var more := Pass(v, rest);
          ReachesTransitive(v, old(Now()), first, mid, more, Now());
          InterruptThenRest(v, old(Now()), nested, rest, first, more);
          trace := first + more;
        } else {
          trace := Pass(v, rest);
        }
    }

    /** One interrupt from the INTA cycle through the stub, the dispatcher and the iret. */
    method Deliver(v: Version, a: Activity) returns (trace: seq<Event>)
      requires iflag && FairAck(v, Acknowledge(Now()))
      modifies this
      ensures Reaches(v, old(Now()), trace, Now()) && Serves(v, old(Now()), a, trace)
      ensures |trace| >= 2 && trace[0] == Ack && trace[|trace| - 1] == ReturnFromInterrupt
      ensures frames == old(frames) && old(inUse) <= inUse && iflag
      ensures acked.Depth() > old(acked).Depth()
      ensures Acknowledged(acked, old(acked).Depth()) == Answer(old(Now()))
      ensures old(Good(v, Now())) && old(Recorded(frames, acked)) && old(AllOwn(eois, acked)) ==>
                Paid(Now(), old(acked).Depth(), Answer(old(Now())))
      decreases a
    {
      var s := Acknowledge(Now());
      master, slave, iflag, frames, acked := s.master, s.slave, s.iflag, s.frames, s.acked;
      AckPushes(old(Now()), s);
      ReachesByStep(v, old(Now()), Ack, Now());
      var more := InMasterDispatch(v, frames.top.irq, a);
      ReachesTransitive(v, old(Now()), [Ack], s, more, Now());
      ghost var mid := Now();
      frames, iflag := frames.under, true;
      ReachesByStep(v, mid, ReturnFromInterrupt, Now());
      ReachesTransitive(v, old(Now()), [Ack] + more, mid, [ReturnFromInterrupt], Now());
      trace := [Ack] + more + [ReturnFromInterrupt];
      LegalAfter(v, old(Now()), [Ack]);
      AckThenDispatch(v, old(Now()), a, more);
      AckedKept(v, s, more, old(acked).Depth());
      if old(Good(v, Now())) && old(Recorded(frames, acked)) && old(AllOwn(eois, acked)) {
        PaidWhenGone(v, old(Now()), Now(), trace);
      }
    }

    method InMasterDispatch(v: Version, irq: Irq, a: Activity) returns (trace: seq<Event>)
      requires frames.On? && frames.top.pc == Entry && frames.top.irq == irq
      modifies this
      ensures Reaches(v, old(Now()), trace, Now()) && Dispatched(v, old(Now()), a, trace)
      ensures frames == On(old(frames).top.(pc := Iret), old(frames).under) && old(inUse) <= inUse
      decreases a, 3
    {
      var inservice16 := InGetInService16();
      var pc;
      if irq == 7 && (if v == AsWritten then LowByteClear(inservice16) else Bit7Clear(inservice16)) {
        pc := Iret;
      } else if irq == 15 && (if v == AsWritten then HighByteClear(inservice16) else Bit15Clear(inservice16)) {
        pc := if v == AsWritten then Iret else CascadeEoi;
      } else {
        pc := if irq in inUse then Handler else Iret;
      }
      frames, iflag := On(frames.top.(pc := pc), frames.under), pc == Handler;
      ReachesByStep(v, old(Now()), Check, Now());
      LegalAfter(v, old(Now()), [Check]);
      ghost var checked := Now();
      var rest := AfterChecks(v, irq, a);
      trace := [Check] + rest;
      ReachesTransitive(v, old(Now()), [Check], checked, rest, Now());
      CheckThen(v, old(Now()), a, rest, checked);
    }

    /** The part of InMasterDispatch below the checks: return, or answer the cascade, or
        handle. */
    method AfterChecks(v: Version, irq: Irq, a: Activity) returns (trace: seq<Event>)
      requires frames.On? && frames.top.pc in {Iret, CascadeEoi, Handler} && frames.top.irq == irq
      modifies this
      ensures Reaches(v, old(Now()), trace, Now())
      ensures old(frames).top.pc == Handler ==> Handled(v, old(Now()), a, trace)
      ensures old(frames).top.pc != Handler ==> trace == if old(frames).top.pc == CascadeEoi then [WriteMasterEoi] else []
      ensures frames == On(old(frames).top.(pc := Iret), old(frames).under) && old(inUse) <= inUse
      decreases a, 2
    {
      trace := [];
      if frames.top.pc == CascadeEoi {
        Write20(MASTER_COMMAND, Iret);
        ReachesByStep(v, old(Now()), WriteMasterEoi, Now());
        trace := [WriteMasterEoi];
      } else if frames.top.pc == Handler {
        trace := HandleAndEnd(v, irq, a);
      }
    }

    /** The driver's handler, then SendEOI. */
    method HandleAndEnd(v: Version, irq: Irq, a: Activity) returns (trace: seq<Event>)
      requires frames.On? && frames.top.pc == Handler && frames.top.irq == irq
      modifies this
      ensures Reaches(v, old(Now()), trace, Now()) && Handled(v, old(Now()), a, trace)
      ensures frames == On(old(frames).top.(pc := Iret), old(frames).under) && old(inUse) <= inUse
      decreases a, 1
    {
      var handling := Pass(v, a.inHandler);
      ghost var s1 := Now();
      frames := On(frames.top.(pc := MasterEoi), frames.under);
      ghost var s2 := Now();
      ReachesByStep(v, s1, HandlerReturns, s2);
      ReachesTransitive(v, old(Now()), handling, s1, [HandlerReturns], s2);
      LegalAfter(v, old(Now()), handling + [HandlerReturns]);
      var ending := SendEOI(v, irq, a);
      ReachesTransitive(v, old(Now()), handling + [HandlerReturns], s2, ending, Now());
      trace := handling + [HandlerReturns] + ending;
      HandlerThenEoi(v, old(Now()), a, handling, s2, ending);
    }

    method SendEOI(v: Version, irq: Irq, a: Activity) returns (trace: seq<Event>)
      requires frames.On? && frames.top.pc == MasterEoi && frames.top.irq == irq
      modifies this
      ensures Reaches(v, old(Now()), trace, Now()) && Ended(v, old(Now()), a, trace)
      ensures frames == On(old(frames).top.(pc := Iret), old(frames).under) && old(inUse) <= inUse
      decreases a, 0
    {
      Write20(MASTER_COMMAND, if irq > 7 then SlaveEoi else Iret);
      ghost var s1 := Now();
      ReachesByStep(v, old(Now()), WriteMasterEoi, s1);
      LegalAfter(v, old(Now()), [WriteMasterEoi]);
      trace := [WriteMasterEoi];
      if irq <= 7 {
        var last := Pass(v, a.beforeIret);
        ReachesTransitive(v, old(Now()), trace, s1, last, Now());
        MasterOnly(v, old(Now()), a, last);
        return trace + last;
      }
      var between := Pass(v, a.betweenEois);
      ghost var s2 := Now();
      ReachesTransitive(v, old(Now()), trace, s1, between, s2);
      Write20(if v == AsWritten then SLAVE_MASK else SLAVE_COMMAND, Iret);
      ghost var s3 := Now();
      ReachesByStep(v, s2, WriteSlaveEoi, s3);
      ReachesTransitive(v, old(Now()), trace + between, s2, [WriteSlaveEoi], s3);
      trace := trace + between + [WriteSlaveEoi];
      LegalAfter(v, old(Now()), trace);
      var last := Pass(v, a.beforeIret);
      ReachesTransitive(v, old(Now()), trace, s3, last, Now());
      MasterThenSlave(v, old(Now()), a, between, s3, last);
      trace := trace + last;
    }

    /** From a good machine any interrupt, with everything nested inside it, leaves both
        in-service registers exactly as it found them, and has sent the EOIs it owed. */
    method Service(v: Version, a: Activity) returns (trace: seq<Event>)
      requires Good(v, Now()) && iflag && FairAck(v, Acknowledge(Now()))
      modifies this
      ensures Good(v, Now()) && iflag && frames == old(frames)
      ensures master.inService == old(master.inService) && slave.inService == old(slave.inService)
      ensures Reaches(v, old(Now()), trace, Now()) && Serves(v, old(Now()), a, trace)
      ensures |trace| >= 2 && trace[0] == Ack && trace[|trace| - 1] == ReturnFromInterrupt
      ensures acked.Depth() > old(acked).Depth()
      ensures Acknowledged(acked, old(acked).Depth()) == Answer(old(Now()))
      ensures old(Recorded(frames, acked)) && old(AllOwn(eois, acked)) ==>
                && Recorded(frames, acked) && AllOwn(eois, acked)
                && Paid(Now(), old(acked).Depth(), Acknowledged(acked, old(acked).Depth()))
    {
      trace := Deliver(v, a);
      RunSafe(v, old(Now()), trace);
      if old(Recorded(frames, acked)) && old(AllOwn(eois, acked)) {
        EoisOwn(v, old(Now()), trace);
        PaidWhenGone(v, old(Now()), Now(), trace);
      }
      SameFramesSameBits(v, old(Now()), trace, Now());
    }
  }
}
