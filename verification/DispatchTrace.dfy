/** What must happen, event by event, when whole interrupts nest in the windows that a
    dispatch leaves open. */
module DispatchTrace {
  import opened Text
  import opened Pic8259
  import opened Stacks
  import opened Dispatch
  import opened DispatchRuns

  /** What the environment does while interrupts may be on: request lines move, the
      handler toggles IF or acquires an IRQ, and whole interrupts come and go. */
  datatype Window =
    | Shut
    | Line(e: Event, rest: Window)
    | Interrupt(nested: Activity, rest: Window)

  /** The windows of one dispatch: in its handler, between the two EOI writes, and
      before its iret. */
  datatype Activity = Activity(inHandler: Window, betweenEois: Window, beforeIret: Window)

  /** The events that a window may contain besides interrupts. */
  predicate Admitted(s: State, e: Event) {
    (e.Raise? || e.Withdraw? || e.Cascade? || e.SetIf? || e.Acquire?) && Enabled(s, e)
  }

  /** An interrupt is taken here if the window offers one. */
  predicate Takes(v: Version, s: State) {
    s.iflag && FairAck(v, Acknowledge(s))
  }

  /** What INTA gives. */
  function Answer(s: State): Acknowledgement {
    Acknowledge(s).acked.top
  }

  function After(v: Version, s: State, es: seq<Event>): State
    decreases |es|
  {
    if es == [] || !Enabled(s, es[0]) then s else After(v, Step(v, s, es[0]), es[1..])
  }

  lemma {:induction false} LegalAfter(v: Version, s: State, es: seq<Event>)
    requires Legal(v, s, es)
    ensures After(v, s, es) == Run(v, s, es)
    decreases |es|
  {
    if es != [] { LegalAfter(v, Step(v, s, es[0]), es[1..]); }
  }

  /** The window `w` is gone through in order: everything it offers that is possible happens,
      each interrupt whole. */
  ghost predicate Follows(v: Version, s: State, w: Window, t: seq<Event>)
    decreases w, 0
  {
    match w
    case Shut => t == []
    case Line(e, rest) =>
      if Admitted(s, e) then t != [] && t[0] == e && Follows(v, Step(v, s, e), rest, t[1..])
      else Follows(v, s, rest, t)
    case Interrupt(nested, rest) =>
      if Takes(v, s) then
        exists k: nat | k <= |t| :: Serves(v, s, nested, t[..k]) && Follows(v, After(v, s, t[..k]), rest, t[k..])
      else Follows(v, s, rest, t)
  }

  /** One interrupt: INTA, the dispatch, iret. */
  ghost predicate Serves(v: Version, s: State, a: Activity, t: seq<Event>)
    decreases a, 4
  {
    && |t| >= 2 && t[0] == Ack && t[|t| - 1] == ReturnFromInterrupt
    && Dispatched(v, After(v, s, [Ack]), a, t[1..|t| - 1])
  }

  /** The checks; then the handler and SendEOI, or the lone EOI for the cascade, or nothing. */
  ghost predicate Dispatched(v: Version, s: State, a: Activity, t: seq<Event>)
    decreases a, 3
  {
    && t != [] && t[0] == Check
    && var s1 := After(v, s, [Check]);
       if s1.TopAt(Handler) then s1.iflag && Handled(v, s1, a, t[1..])
       else if s1.TopAt(CascadeEoi) then t[1..] == [WriteMasterEoi]
       else t[1..] == []
  }

  ghost predicate Handled(v: Version, s: State, a: Activity, t: seq<Event>)
    decreases a, 2
  {
    exists k: nat | k < |t| ::
      Follows(v, s, a.inHandler, t[..k]) && t[k] == HandlerReturns && Ended(v, After(v, s, t[..k + 1]), a, t[k + 1..])
  }

  /** SendEOI: the master's write, above 7 the slave's, and what may happen between and after. */
  ghost predicate Ended(v: Version, s: State, a: Activity, t: seq<Event>)
    decreases a, 1
  {
    && s.frames.On? && t != [] && t[0] == WriteMasterEoi
    && var s1 := After(v, s, [WriteMasterEoi]);
       if s.frames.top.irq < 8 then Follows(v, s1, a.beforeIret, t[1..])
       else exists k: nat | 1 <= k < |t| ::
         && Follows(v, s1, a.betweenEois, t[1..k]) && t[k] == WriteSlaveEoi
         && Follows(v, After(v, s, t[..k + 1]), a.beforeIret, t[k + 1..])
  }

  // ---- Putting the parts together

  lemma InterruptThenRest(v: Version, s: State, nested: Activity, rest: Window, t1: seq<Event>, t2: seq<Event>)
    requires Takes(v, s) && Serves(v, s, nested, t1) && Follows(v, After(v, s, t1), rest, t2)
    ensures Follows(v, s, Interrupt(nested, rest), t1 + t2)
  {
    var t, k := t1 + t2, |t1|;
    assert t[..k] == t1 && t[k..] == t2;
  }

  lemma LineThenRest(v: Version, s: State, e: Event, rest: Window, t: seq<Event>)
    requires Admitted(s, e) && Follows(v, Step(v, s, e), rest, t)
    ensures Follows(v, s, Line(e, rest), [e] + t)
  {
    assert ([e] + t)[1..] == t;
  }

  lemma AckThenDispatch(v: Version, s: State, a: Activity, t: seq<Event>)
    requires Dispatched(v, After(v, s, [Ack]), a, t)
    ensures Serves(v, s, a, [Ack] + t + [ReturnFromInterrupt])
  {
    var u := [Ack] + t + [ReturnFromInterrupt];
    assert u[1..|u| - 1] == t;
  }

  lemma CheckThen(v: Version, s: State, a: Activity, t: seq<Event>, s1: State)
    requires s1 == After(v, s, [Check])
    requires if s1.TopAt(Handler) then s1.iflag && Handled(v, s1, a, t)
             else t == if s1.TopAt(CascadeEoi) then [WriteMasterEoi] else []
    ensures Dispatched(v, s, a, [Check] + t)
  {
    assert ([Check] + t)[1..] == t;
  }

  lemma HandlerThenEoi(v: Version, s: State, a: Activity, t1: seq<Event>, s2: State, t2: seq<Event>)
    requires Follows(v, s, a.inHandler, t1) && s2 == After(v, s, t1 + [HandlerReturns]) && Ended(v, s2, a, t2)
    ensures Handled(v, s, a, t1 + [HandlerReturns] + t2)
  {
    var t, k := t1 + [HandlerReturns] + t2, |t1|;
    assert t[..k] == t1 && t[..k + 1] == t1 + [HandlerReturns] && t[k + 1..] == t2;
  }

  lemma MasterOnly(v: Version, s: State, a: Activity, t: seq<Event>)
    requires s.frames.On? && s.frames.top.irq < 8 && Follows(v, After(v, s, [WriteMasterEoi]), a.beforeIret, t)
    ensures Ended(v, s, a, [WriteMasterEoi] + t)
  {
    assert ([WriteMasterEoi] + t)[1..] == t;
  }

  lemma MasterThenSlave(v: Version, s: State, a: Activity, t1: seq<Event>, s2: State, t2: seq<Event>)
    requires s.frames.On? && s.frames.top.irq > 7 && Follows(v, After(v, s, [WriteMasterEoi]), a.betweenEois, t1)
    requires s2 == After(v, s, [WriteMasterEoi] + t1 + [WriteSlaveEoi]) && Follows(v, s2, a.beforeIret, t2)
    ensures Ended(v, s, a, [WriteMasterEoi] + t1 + [WriteSlaveEoi] + t2)
  {
    var t, k := [WriteMasterEoi] + t1 + [WriteSlaveEoi] + t2, 1 + |t1|;
    assert t[1..k] == t1 && t[..k + 1] == [WriteMasterEoi] + t1 + [WriteSlaveEoi] && t[k + 1..] == t2;
  }

  // ---- What that means

  /** An interrupt that the handler's window offers first, and that may be taken, is
      acknowledged right after the checks. */
  lemma NestsAtOnce(v: Version, s: State, a: Activity, t: seq<Event>)
    requires Serves(v, s, a, t) && a.inHandler.Interrupt?
    requires var s2 := After(v, After(v, s, [Ack]), [Check]); s2.TopAt(Handler) && FairAck(v, Acknowledge(s2))
    ensures |t| > 3 && t[0] == Ack && t[1] == Check && t[2] == Ack
  {
    var s2 := After(v, After(v, s, [Ack]), [Check]);
    var body := t[1..|t| - 1][1..];
    assert s2.iflag && Handled(v, s2, a, body);
    var k: nat :| k < |body| && Follows(v, s2, a.inHandler, body[..k]);
    BeginsWithAck(v, s2, a.inHandler, body[..k]);
    assert body[..k][0] == t[2];
  }

  lemma BeginsWithAck(v: Version, s: State, w: Window, t: seq<Event>)
    requires w.Interrupt? && Takes(v, s) && Follows(v, s, w, t)
    ensures |t| >= 2 && t[0] == Ack
  {
    var k: nat :| k <= |t| && Serves(v, s, w.nested, t[..k]);
    assert t[..k][0] == t[0];
  }
}
