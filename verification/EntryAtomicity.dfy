/** SetInterruptEntry's three stores against the dispatcher's reads, one memory access
    at a time. Values are represented by the number of the SetInterruptEntry call that
    stored them, 0 standing for the zeroed table. */
module EntryAtomicity {
  import opened Stacks

  type Irq = n: nat | n < 16

  /** Who stored each part of the sixteen entries. BUS_INUSE is the only level that is ever
      stored, so an IRQ is BUS_INUSE exactly when some call has stored its level. */
  datatype Table = Table(level: map<Irq, nat>, handler: map<Irq, nat>, owner: map<Irq, nat>) {
    function LevelBy(irq: Irq): nat { if irq in level then level[irq] else 0 }
    function HandlerBy(irq: Irq): nat { if irq in handler then handler[irq] else 0 }
    function OwnerBy(irq: Irq): nat { if irq in owner then owner[irq] else 0 }

    predicate InUse(irq: Irq) { LevelBy(irq) != 0 }

    predicate Whole(irq: Irq) {
      LevelBy(irq) == HandlerBy(irq) == OwnerBy(irq)
    }
  }

  /** What runs: InAcquireLegacyIRQ past its test, SetInterruptEntry after `stores` of its
      stores, or a dispatch that has read nothing, a BUS_INUSE level, that and then the
      handler with its owner, or another level. */
  datatype Activity =
    | Tested(irq: Irq)
    | Setter(irq: Irq, call: nat, stores: nat)
    | Arrived(irq: Irq)
    | LevelRead(irq: Irq, level: nat)
    | Called(irq: Irq, level: nat, handler: nat, owner: nat)
    | Ignored(irq: Irq)

  datatype State = State(table: Table, iflag: bool, running: Stack<Activity>, calls: nat)

  const INITIAL := State(Table(map[], map[], map[]), true, Bottom, 0)

  /** What the code relies on: the stores are a critical section, the manager does not run
      inside an interrupt service routine, and an entry that is BUS_INUSE is not set. The
      first and the third are in the code, the second is a rule for drivers. */
  datatype Rules = Rules(criticalSection: bool, notInIsr: bool, testsFirst: bool)

  predicate TwoOfThree(r: Rules) {
    (r.criticalSection && r.notInIsr) || (r.criticalSection && r.testsFirst) || (r.notInIsr && r.testsFirst)
  }

  datatype Event =
    | Acquire(irq: Irq) | EnterSection | Store | ExitSection
    | Interrupt(irq: Irq) | ReadLevel | ReadHandler | Return

  predicate Enabled(r: Rules, s: State, e: Event) {
    match e
    case Acquire(irq) =>
      // From the kernel proper, or from a handler that the dispatcher has called.
      && (s.running.Bottom? || (!r.notInIsr && s.running.top.Called?))
      && (r.testsFirst ==> !s.table.InUse(irq))
    case EnterSection => s.running.On? && s.running.top.Tested?
    case Store => s.running.On? && s.running.top.Setter? && s.running.top.stores < 3
    case ExitSection => s.running.On? && s.running.top.Setter? && s.running.top.stores == 3
    case Interrupt(_) => s.iflag
    case ReadLevel => s.running.On? && s.running.top.Arrived?
    case ReadHandler => s.running.On? && s.running.top.LevelRead?
    case Return => s.running.On? && (s.running.top.Called? || s.running.top.Ignored?)
  }

  function Stored(t: Table, irq: Irq, call: nat, stores: nat): Table {
    if stores == 0 then t.(handler := t.handler[irq := call])
    else if stores == 1 then t.(owner := t.owner[irq := call])
    else t.(level := t.level[irq := call])
  }

  function Step(r: Rules, s: State, e: Event): State
    requires Enabled(r, s, e)
  {
    match e
    case Acquire(irq) => s.(running := On(Tested(irq), s.running))
    case EnterSection =>
      s.(iflag := s.iflag && !r.criticalSection,
         running := On(Setter(s.running.top.irq, s.calls + 1, 0), s.running.under), calls := s.calls + 1)
    case Store =>
      var Setter(irq, call, stores) := s.running.top;
      s.(running := On(Setter(irq, call, stores + 1), s.running.under), table := Stored(s.table, irq, call, stores))
    case ExitSection => s.(iflag := s.iflag || r.criticalSection, running := s.running.under)
    case Interrupt(irq) => s.(iflag := false, running := On(Arrived(irq), s.running))
    case ReadLevel =>
      var irq := s.running.top.irq;
      if s.table.InUse(irq) then
        // The dispatcher turns interrupts on, so the next read can be interrupted.
        s.(iflag := true, running := On(LevelRead(irq, s.table.LevelBy(irq)), s.running.under))
      else s.(running := On(Ignored(irq), s.running.under))
    case ReadHandler =>
      var LevelRead(irq, level) := s.running.top;
      s.(running := On(Called(irq, level, s.table.HandlerBy(irq), s.table.OwnerBy(irq)), s.running.under))
    case Return => s.(iflag := true, running := s.running.under)
  }

  predicate Legal(r: Rules, es: seq<Event>)
    decreases |es|, 0
  {
    es != [] ==> Legal(r, es[..|es| - 1]) && Enabled(r, Run(r, es[..|es| - 1]), es[|es| - 1])
  }

  /** From the zeroed table with nothing running. */
  function Run(r: Rules, es: seq<Event>): State
    requires Legal(r, es)
    decreases |es|, 1
  {
    if es == [] then INITIAL else Step(r, Run(r, es[..|es| - 1]), es[|es| - 1])
  }

  /** No dispatch has called a handler whose entry came from different sets. */
  predicate NoneTorn(running: Stack<Activity>) {
    running.On? ==>
      && (running.top.Called? ==> running.top.level == running.top.handler == running.top.owner)
      && NoneTorn(running.under)
  }

  ghost predicate NeverTorn(r: Rules) {
    forall es: seq<Event> | Legal(r, es) :: NoneTorn(Run(r, es).running)
  }

  // ---- The invariant

  predicate NoSetter(running: Stack<Activity>) {
    running.On? ==> !running.top.Setter? && NoSetter(running.under)
  }

  predicate Setting(running: Stack<Activity>, irq: Irq) {
    running.On? && ((running.top.Setter? && running.top.irq == irq) || Setting(running.under, irq))
  }

  /** One setter at a time; outside interrupts if that is the rule. */
  predicate OneSetter(r: Rules, running: Stack<Activity>) {
    running.On? ==>
      && (r.notInIsr && (running.top.Setter? || running.top.Tested?) ==> running.under.Bottom?)
      && (running.top.Setter? ==> NoSetter(running.under))
      && OneSetter(r, running.under)
  }

  /** How far the setters have got. Without the critical section an entry is not BUS_INUSE
      until its last store, so no dispatch gets past the level test before. */
  predicate Progress(r: Rules, t: Table, running: Stack<Activity>) {
    running.On? ==>
      && (!r.criticalSection && r.testsFirst && running.top.Tested? ==> !t.InUse(running.top.irq))
      && (running.top.Setter? ==>
            var Setter(irq, call, stores) := running.top;
            && stores <= 3
            && (stores >= 1 ==> t.HandlerBy(irq) == call)
            && (stores >= 2 ==> t.OwnerBy(irq) == call)
            && (stores >= 3 ==> t.LevelBy(irq) == call)
            && (!r.criticalSection && r.testsFirst && stores < 3 ==> !t.InUse(irq)))
      && Progress(r, t, running.under)
  }

  /** What a dispatch has read is still in the table, and nothing above it, which runs
      before it goes on, is about to store there. */
  predicate Undisturbed(t: Table, running: Stack<Activity>, busy: set<Irq>) {
    running.On? ==>
      match running.top
      case Tested(irq) => Undisturbed(t, running.under, busy + {irq})
      case Setter(irq, _, _) => Undisturbed(t, running.under, busy + {irq})
      case LevelRead(irq, level) =>
        && level == t.LevelBy(irq) && t.InUse(irq) && t.Whole(irq) && irq !in busy
        && Undisturbed(t, running.under, busy)
      case _ => Undisturbed(t, running.under, busy)
  }

  predicate Inv(r: Rules, s: State) {
    && OneSetter(r, s.running)
    && (r.criticalSection && s.running.On? ==>
          if s.running.top.Setter? then !s.iflag else NoSetter(s.running))
    && Progress(r, s.table, s.running)
    && (forall i: Irq :: Setting(s.running, i) || s.table.Whole(i))
    && Undisturbed(s.table, s.running, {})
    && NoneTorn(s.running)
  }

  lemma NotSetting(running: Stack<Activity>, irq: Irq)
    requires NoSetter(running)
    ensures !Setting(running, irq)
  {
  }

  /** A stack whose reads are undisturbed still is with one more IRQ busy that is not in use. */
  lemma {:induction false} OneMoreBusy(t: Table, running: Stack<Activity>, busy: set<Irq>, irq: Irq)
    requires Undisturbed(t, running, busy) && !t.InUse(irq)
    ensures Undisturbed(t, running, busy + {irq})
    decreases running
  {
    if running.On? {
      match running.top
      case Tested(i) =>
        assert busy + {i} + {irq} == busy + {irq} + {i};
        OneMoreBusy(t, running.under, busy + {i}, irq);
      case Setter(i, _, _) =>
        assert busy + {i} + {irq} == busy + {irq} + {i};
        OneMoreBusy(t, running.under, busy + {i}, irq);
      case _ => OneMoreBusy(t, running.under, busy, irq);
    }
  }

  lemma {:induction false} FewerBusy(t: Table, running: Stack<Activity>, busy: set<Irq>, fewer: set<Irq>)
    requires Undisturbed(t, running, busy) && fewer <= busy
    ensures Undisturbed(t, running, fewer)
    decreases running
  {
    if running.On? {
      match running.top
      case Tested(i) => FewerBusy(t, running.under, busy + {i}, fewer + {i});
      case Setter(i, _, _) => FewerBusy(t, running.under, busy + {i}, fewer + {i});
      case _ => FewerBusy(t, running.under, busy, fewer);
    }
  }

  /** Stores to a busy entry. */
  lemma {:induction false} BusyStore(t: Table, t': Table, running: Stack<Activity>, busy: set<Irq>, irq: Irq)
    requires Undisturbed(t, running, busy) && irq in busy
    requires forall i: Irq | i != irq :: t'.LevelBy(i) == t.LevelBy(i) && t'.HandlerBy(i) == t.HandlerBy(i) && t'.OwnerBy(i) == t.OwnerBy(i)
    ensures Undisturbed(t', running, busy)
    decreases running
  {
    if running.On? {
      match running.top
      case Tested(i) => BusyStore(t, t', running.under, busy + {i}, irq);
      case Setter(i, _, _) => BusyStore(t, t', running.under, busy + {i}, irq);
      case _ => BusyStore(t, t', running.under, busy, irq);
    }
  }

  lemma NoProgress(r: Rules, t: Table, running: Stack<Activity>)
    requires NoSetter(running) && r.criticalSection
    ensures Progress(r, t, running)
  {
  }

  lemma StoreSafe(r: Rules, s: State, s': State)
    requires TwoOfThree(r) && Inv(r, s) && Enabled(r, s, Store) && s' == Step(r, s, Store)
    ensures Inv(r, s')
  {
    var Setter(irq, call, stores) := s.running.top;
    var under := s.running.under;
    assert {} + {irq} == {irq};
    BusyStore(s.table, s'.table, under, {irq}, irq);
    if r.criticalSection { NoProgress(r, s'.table, under); }
    forall i: Irq ensures Setting(s'.running, i) || s'.table.Whole(i) {
      NotSetting(under, i);
      assert Setting(s.running, i) || s.table.Whole(i);
    }
  }

  /** A BUS_INUSE entry that a dispatch can see is whole. */
  lemma {:induction false} VisibleIsWhole(r: Rules, t: Table, running: Stack<Activity>, irq: Irq)
    requires Progress(r, t, running) && Setting(running, irq) && !r.criticalSection && r.testsFirst && t.InUse(irq)
    ensures t.Whole(irq)
    decreases running
  {
    if !(running.top.Setter? && running.top.irq == irq) { VisibleIsWhole(r, t, running.under, irq); }
  }

  lemma ReadSafe(r: Rules, s: State, s': State)
    requires TwoOfThree(r) && Inv(r, s) && Enabled(r, s, ReadLevel) && s' == Step(r, s, ReadLevel)
    ensures Inv(r, s')
  {
    var irq := s.running.top.irq;
    if s.table.InUse(irq) && !s.table.Whole(irq) {
      if r.criticalSection { NotSetting(s.running, irq); } else { VisibleIsWhole(r, s.table, s.running, irq); }
    }
    assert forall i: Irq :: Setting(s'.running, i) == Setting(s.running, i);
  }

  lemma SectionSafe(r: Rules, s: State, e: Event, s': State)
    requires TwoOfThree(r) && Inv(r, s) && Enabled(r, s, e) && s' == Step(r, s, e)
    requires e.EnterSection? || e.ExitSection?
    ensures Inv(r, s')
  {
    var irq, under := s.running.top.irq, s.running.under;
    assert {} + {irq} == {irq};
    assert Undisturbed(s.table, under, {irq});
    if e.ExitSection? { FewerBusy(s.table, under, {irq}, {}); }
    forall i: Irq ensures Setting(s'.running, i) || s'.table.Whole(i) {
      assert Setting(s.running, i) || s.table.Whole(i);
      if e.ExitSection? { NotSetting(under, i); }
    }
  }

  lemma StepSafe(r: Rules, s: State, e: Event, s': State)
    requires TwoOfThree(r) && Inv(r, s) && Enabled(r, s, e) && s' == Step(r, s, e)
    ensures Inv(r, s')
  {
    match e
    case Acquire(irq) =>
      assert {} + {irq} == {irq};
      if r.testsFirst { OneMoreBusy(s.table, s.running, {}, irq); }
      assert forall i: Irq :: Setting(s'.running, i) == Setting(s.running, i);
    case EnterSection => SectionSafe(r, s, e, s');
    case Store => StoreSafe(r, s, s');
    case ExitSection => SectionSafe(r, s, e, s');
    case ReadLevel => ReadSafe(r, s, s');
    case _ =>
      assert r.criticalSection ==> NoSetter(s.running) && NoSetter(s'.running);
      assert forall i: Irq :: Setting(s'.running, i) == Setting(s.running, i);
  }

  /** Under any two of the rules no interleaving leaves the invariant. */
  lemma {:induction false} RunSafe(r: Rules, es: seq<Event>)
    requires TwoOfThree(r) && Legal(r, es)
    ensures Inv(r, Run(r, es))
    decreases |es|
  {
    if es != [] {
      var before := es[..|es| - 1];
      RunSafe(r, before);
      StepSafe(r, Run(r, before), es[|es| - 1], Run(r, es));
    }
  }

  // ---- One rule is not enough

  ghost predicate Reached(r: Rules, es: seq<Event>, s: State) {
    Legal(r, es) && Run(r, es) == s
  }

  lemma Then(r: Rules, es: seq<Event>, s: State, e: Event) returns (es': seq<Event>, s': State)
    requires Reached(r, es, s) && Enabled(r, s, e)
    ensures Reached(r, es', s') && s' == Step(r, s, e)
  {
    es', s' := es + [e], Step(r, s, e);
    assert es'[..|es'| - 1] == es;
  }

  /** InAcquireLegacyIRQ without an interruption. */
  lemma AcquireAtOnce(r: Rules, es: seq<Event>, s: State, irq: Irq) returns (es': seq<Event>, s': State)
    requires Reached(r, es, s) && Enabled(r, s, Acquire(irq))
    ensures Reached(r, es', s')
    ensures s' == State(Stored(Stored(Stored(s.table, irq, s.calls + 1, 0), irq, s.calls + 1, 1), irq, s.calls + 1, 2),
                        s.iflag || r.criticalSection, s.running, s.calls + 1)
  {
    es', s' := Then(r, es, s, Acquire(irq));
    es', s' := Then(r, es', s', EnterSection);
    es', s' := Then(r, es', s', Store);
    es', s' := Then(r, es', s', Store);
    es', s' := Then(r, es', s', Store);
    es', s' := Then(r, es', s', ExitSection);
  }

  /** An interrupt up to the call of its handler. */
  lemma Dispatch(r: Rules, es: seq<Event>, s: State, irq: Irq) returns (es': seq<Event>, s': State)
    requires Reached(r, es, s) && s.iflag && s.table.InUse(irq)
    ensures Reached(r, es', s')
    ensures var t := s.table;
            s' == State(t, true, On(Called(irq, t.LevelBy(irq), t.HandlerBy(irq), t.OwnerBy(irq)), s.running), s.calls)
  {
    es', s' := Then(r, es, s, Interrupt(irq));
    es', s' := Then(r, es', s', ReadLevel);
    es', s' := Then(r, es', s', ReadHandler);
  }

  /** An acquisition of IRQ 0 has passed its test when the handler of IRQ 1 acquires IRQ 0;
      when it goes on, its first store meets the other's level. */
  lemma TornWithoutSectionAndInIsr(r: Rules) returns (es: seq<Event>)
    requires !r.criticalSection && !r.notInIsr
    ensures Legal(r, es) && !NoneTorn(Run(r, es).running)
  {
    var s;
    es, s := AcquireAtOnce(r, [], INITIAL, 1);
    es, s := Then(r, es, s, Acquire(0));
    es, s := Then(r, es, s, EnterSection);
    es, s := Dispatch(r, es, s, 1);
    es, s := AcquireAtOnce(r, es, s, 0);
    es, s := Then(r, es, s, Return);
    es, s := Then(r, es, s, Store);
    es, s := Dispatch(r, es, s, 0);
  }

  /** Between the two reads of a dispatch of IRQ 0 the handler of IRQ 1 sets IRQ 0 again. */
  lemma TornInIsrWithoutTest(r: Rules) returns (es: seq<Event>)
    requires !r.notInIsr && !r.testsFirst
    ensures Legal(r, es) && !NoneTorn(Run(r, es).running)
  {
    var s;
    es, s := AcquireAtOnce(r, [], INITIAL, 1);
    es, s := AcquireAtOnce(r, es, s, 0);
    es, s := Then(r, es, s, Interrupt(0));
    es, s := Then(r, es, s, ReadLevel);
    es, s := Dispatch(r, es, s, 1);
    es, s := AcquireAtOnce(r, es, s, 0);
    es, s := Then(r, es, s, Return);
    es, s := Then(r, es, s, ReadHandler);
  }

  /** IRQ 0 arrives while its entry is being set again. */
  lemma TornWithoutSectionAndTest(r: Rules) returns (es: seq<Event>)
    requires !r.criticalSection && !r.testsFirst
    ensures Legal(r, es) && !NoneTorn(Run(r, es).running)
  {
    var s;
    es, s := AcquireAtOnce(r, [], INITIAL, 0);
    es, s := Then(r, es, s, Acquire(0));
    es, s := Then(r, es, s, EnterSection);
    es, s := Then(r, es, s, Store);
    es, s := Dispatch(r, es, s, 0);
  }

  /** In no run does a dispatch act on parts of two entries, if and only if two of the three
      rules are kept. So with the code's level test the critical section is enough by itself,
      and so is the rule for drivers. */
  lemma NeverTornExactly(r: Rules)
    ensures NeverTorn(r) <==> TwoOfThree(r)
  {
    if TwoOfThree(r) {
      forall es: seq<Event> | Legal(r, es) ensures NoneTorn(Run(r, es).running) { RunSafe(r, es); }
    } else if !r.criticalSection && !r.notInIsr {
      var es := TornWithoutSectionAndInIsr(r);
    } else if !r.notInIsr {
      var es := TornInIsrWithoutTest(r);
    } else {
      var es := TornWithoutSectionAndTest(r);
    }
  }

  // ---- Entries in use stay as they are

  predicate SameInUse(t: Table, t': Table) {
    forall i: Irq | t.InUse(i) ::
      t'.LevelBy(i) == t.LevelBy(i) && t'.HandlerBy(i) == t.HandlerBy(i) && t'.OwnerBy(i) == t.OwnerBy(i)
  }

  /** No step of any run stores to an entry that is BUS_INUSE. */
  ghost predicate InUseIsKept(r: Rules) {
    forall es: seq<Event> | es != [] && Legal(r, es) :: SameInUse(Run(r, es[..|es| - 1]).table, Run(r, es).table)
  }

  /** An acquisition runs below everything else, and its entry is not in use until its last
      store. */
  predicate Fresh(t: Table, running: Stack<Activity>) {
    running.On? ==>
      && (running.top.Tested? || running.top.Setter? ==> running.under.Bottom?)
      && (running.top.Tested? || (running.top.Setter? && running.top.stores < 3) ==> !t.InUse(running.top.irq))
      && Fresh(t, running.under)
  }

  lemma StepKeepsInUse(r: Rules, s: State, e: Event, s': State)
    requires r.notInIsr && r.testsFirst && Fresh(s.table, s.running) && Enabled(r, s, e) && s' == Step(r, s, e)
    ensures Fresh(s'.table, s'.running) && SameInUse(s.table, s'.table)
  {
  }

  lemma {:induction false} RunKeepsFresh(r: Rules, es: seq<Event>)
    requires r.notInIsr && r.testsFirst && Legal(r, es)
    ensures Fresh(Run(r, es).table, Run(r, es).running)
    decreases |es|
  {
    if es != [] {
      var before := es[..|es| - 1];
      RunKeepsFresh(r, before);
      StepKeepsInUse(r, Run(r, before), es[|es| - 1], Run(r, es));
    }
  }

  /** The kernel has passed its test for IRQ 0 when the handler of IRQ 1 acquires IRQ 0; the
      kernel's first store then replaces the handler. */
  lemma OvertakenInIsr(r: Rules) returns (es: seq<Event>)
    requires !r.notInIsr
    ensures es != [] && Legal(r, es) && !SameInUse(Run(r, es[..|es| - 1]).table, Run(r, es).table)
  {
    var s;
    es, s := AcquireAtOnce(r, [], INITIAL, 1);
    es, s := Then(r, es, s, Acquire(0));
    es, s := Dispatch(r, es, s, 1);
    es, s := AcquireAtOnce(r, es, s, 0);
    es, s := Then(r, es, s, Return);
    es, s := Then(r, es, s, EnterSection);
    es := StoreChanges(r, es, s);
  }

  /** Without the test IRQ 0 can simply be set twice. */
  lemma SetAgain(r: Rules) returns (es: seq<Event>)
    requires !r.testsFirst
    ensures es != [] && Legal(r, es) && !SameInUse(Run(r, es[..|es| - 1]).table, Run(r, es).table)
  {
    var s;
    es, s := AcquireAtOnce(r, [], INITIAL, 0);
    es, s := Then(r, es, s, Acquire(0));
    es, s := Then(r, es, s, EnterSection);
    es := StoreChanges(r, es, s);
  }

  lemma StoreChanges(r: Rules, es: seq<Event>, s: State) returns (es': seq<Event>)
    requires Reached(r, es, s) && s.running.On? && s.running.top.Setter? && s.running.top.stores == 0
    requires s.table.InUse(s.running.top.irq) && s.table.HandlerBy(s.running.top.irq) != s.running.top.call
    ensures es' != [] && Legal(r, es') && !SameInUse(Run(r, es'[..|es'| - 1]).table, Run(r, es').table)
  {
    es' := es + [Store];
    assert es'[..|es'| - 1] == es;
    assert s.table.InUse(s.running.top.irq);
  }

  /** Under every interleaving an entry that is BUS_INUSE keeps its level, handler and owner,
      if and only if the manager stays out of interrupts and tests first. The critical section
      makes no difference, since the test is outside it. */
  lemma InUseIsKeptExactly(r: Rules)
    ensures InUseIsKept(r) <==> r.notInIsr && r.testsFirst
  {
    if r.notInIsr && r.testsFirst {
      forall es: seq<Event> | es != [] && Legal(r, es)
        ensures SameInUse(Run(r, es[..|es| - 1]).table, Run(r, es).table)
      {
        var before := es[..|es| - 1];
        RunKeepsFresh(r, before);
        StepKeepsInUse(r, Run(r, before), es[|es| - 1], Run(r, es));
      }
    } else if r.testsFirst {
      var es := OvertakenInIsr(r);
    } else {
      var es := SetAgain(r);
    }
  }
}
