/** The monitor on the kernel stack itself: the interrupted guests' contexts are nowhere but
    in its words, and still INT is a call and IRET its return. */
module V86Nesting {
  import opened Text
  import opened Stacks
  import opened Basics
  import K = V86Stack
  import M = V86Monitor

  /** Where ScEnterV86 returns to. */
  const KERNEL: K.Word := 0
  const MONITOR: K.Word := 1

  /** `stack.active` is history that no step reads. */
  datatype State =
    | InGuest(stack: K.State, context: M.Context, mem: M.Memory)
    | Back(mem: M.Memory)

  /** What the C code between the trap and ScEnterV86 puts on the stack, and the registers
      it holds at the call. */
  datatype Frames = Frames(locals: seq<K.Word>, saved: K.Saved)

  /** A trap frame in the order in which it is pushed. */
  function FrameWords(c: M.Context): (ws: seq<K.Word>)
    ensures |ws| == K.FRAME && forall i | 0 <= i < K.FRAME :: ws[i] >= 0
  {
    c.others[..7] + [c.cs, c.eip] + c.others[7..]
  }

  function Natural(w: K.Word): nat {
    if w < 0 then 0 else w
  }

  /** `n` words of the trap frame, downward. */
  function Slots(m: K.Memory, esp0: int, from: nat, n: nat): (ws: seq<nat>)
    ensures |ws| == n
  {
    seq(n, i requires 0 <= i < n => Natural(K.At(m, esp0 - 1 - from - i)))
  }

  /** The trap frame under ESP0. */
  function FrameAt(m: K.Memory, esp0: int): M.Context {
    M.Context(Natural(K.At(m, esp0 - 8)), Natural(K.At(m, esp0 - 9)), Slots(m, esp0, 0, 7) + Slots(m, esp0, 9, 8))
  }

  /** ScEnterV86 called from C code with these frames. */
  function Enter(s: K.State, ret: K.Word, f: Frames): K.State
    requires !s.inGuest && K.Below(s, s.esp)
  {
    var words := K.StoreDown(s.words, s.esp, f.locals + [ret]);
    K.Step(Repaired, s.(words := words, esp := s.esp - |f.locals| - 1), K.Enter(f.saved))
  }

  function Trapped(s: K.State, c: M.Context): K.State
    requires s.inGuest && s.active.On?
  {
    K.Step(Repaired, s, K.Trap(FrameWords(c)))
  }

  /** One instruction of the guest, with all that the kernel does if it faults. */
  function Step(g: M.Guest, f: Frames, s: State): State
    requires Inv(s)
  {
    match s
    case Back(_) => s
    case InGuest(k, ctx, mem) =>
      if M.Decode(g, ctx, mem) == M.Plain then
        var (ctx', mem') := g.cpu(ctx, mem);
        InGuest(k, ctx', mem')
      else
        var t := Trapped(k, ctx);
        var c := FrameAt(t.words, t.esp0);
        match M.Decode(g, c, mem)
        case Int(vector) => InGuest(Enter(t, MONITOR, f), M.Handler(c, mem, vector), mem)
        case Iret => Reentered(K.Step(Repaired, t, K.Reenter), mem)
        case _ =>
          var (c', mem') := M.Advance(g, c, mem);
          InGuest(K.Step(Repaired, t, K.Resume), c', mem')
  }

  /** ScEnterV86 returns to the address it finds: to the monitor, which steps EIP past the
      INT and leaves through its trap frame, or to other kernel code. */
  function Reentered(s: K.State, mem: M.Memory): State
    requires !s.inGuest
  {
    if K.At(s.words, s.esp) == MONITOR then
      InGuest(s.(inGuest := true), M.Resumed(Repaired, FrameAt(s.words, s.esp0)), mem)
    else Back(mem)
  }

  // ---- What the words stand for

  /** Each caller's return address lies above its saved block, below the trap frame that the
      monitor will leave through. */
  predicate Nested(m: K.Memory, active: Stack<K.Activation>) {
    active.On? ==>
      && K.At(m, active.top.base + 6) == (if active.under.Bottom? then KERNEL else MONITOR)
      && (active.under.On? ==> active.top.base + 7 <= active.under.top.base - K.FRAME)
      && Nested(m, active.under)
  }

  predicate Inv(s: State) {
    s.InGuest? ==>
      && K.Inv(Repaired, s.stack) && s.stack.inGuest && s.stack.active.On?
      && Nested(s.stack.words, s.stack.active)
  }

  /** The contexts that the nested monitor calls will resume. */
  function Pending(m: K.Memory, active: Stack<K.Activation>): Stack<M.Context> {
    if active.Bottom? || active.under.Bottom? then Bottom
    else On(M.Resumed(Repaired, FrameAt(m, active.under.top.base)), Pending(m, active.under))
  }

  function Abstract(s: State): M.Machine {
    match s
    case InGuest(k, ctx, mem) => M.Running(Pending(k.words, k.active), ctx, mem)
    case Back(mem) => M.Returned(mem)
  }

  /** A context goes through the stack unchanged. */
  lemma FrameRoundTrip(m: K.Memory, esp0: int, c: M.Context)
    requires forall i | 0 <= i < K.FRAME :: K.At(m, esp0 - 1 - i) == FrameWords(c)[i]
    ensures FrameAt(m, esp0) == c
  {
    SlotsOfFrame(m, esp0, c, 0, 7);
    SlotsOfFrame(m, esp0, c, 9, 8);
    assert FrameWords(c)[9..17] == c.others[7..];
    assert c.others[..7] + c.others[7..] == c.others;
    assert K.At(m, esp0 - 1 - 7) == FrameWords(c)[7] && K.At(m, esp0 - 1 - 8) == FrameWords(c)[8];
  }

  lemma SlotsOfFrame(m: K.Memory, esp0: int, c: M.Context, from: nat, n: nat)
    requires from + n <= K.FRAME && forall i | 0 <= i < K.FRAME :: K.At(m, esp0 - 1 - i) == FrameWords(c)[i]
    ensures Slots(m, esp0, from, n) == FrameWords(c)[from..from + n]
  {
    forall i | 0 <= i < n ensures Slots(m, esp0, from, n)[i] == FrameWords(c)[from + i] {
      assert K.At(m, esp0 - 1 - (from + i)) == FrameWords(c)[from + i];
      assert Slots(m, esp0, from, n)[i] == Natural(K.At(m, esp0 - 1 - (from + i)));
    }
  }

  lemma SameFrame(m: K.Memory, m': K.Memory, esp0: int)
    requires forall a | esp0 - K.FRAME <= a < esp0 :: K.At(m', a) == K.At(m, a)
    ensures FrameAt(m', esp0) == FrameAt(m, esp0)
  {
  }

  /** Stores below the innermost block change nothing that is pending. */
  lemma {:induction false} PendingKept(m: K.Memory, m': K.Memory, active: Stack<K.Activation>)
    requires Nested(m, active) && active.On? && forall a | a >= active.top.base :: K.At(m', a) == K.At(m, a)
    ensures Nested(m', active) && Pending(m', active) == Pending(m, active)
    decreases active
  {
    if active.under.On? {
      SameFrame(m, m', active.under.top.base);
      PendingKept(m, m', active.under);
    }
  }

  lemma MarkedSame(m: K.Memory, active: Stack<K.Activation>)
    ensures Pending(m, K.MarkNested(active)) == Pending(m, active)
    ensures Nested(m, K.MarkNested(active)) == Nested(m, active)
  {
  }

  // ---- One step

  lemma TrapKeeps(s: K.State, c: M.Context, t: K.State)
    requires Inv(InGuest(s, c, map[])) && t == Trapped(s, c)
    ensures K.Inv(Repaired, t) && t.active == s.active && t.esp0 == s.esp0 == s.active.top.base
    ensures !t.inGuest && t.esp == t.esp0 - K.FRAME
    ensures FrameAt(t.words, t.esp0) == c
    ensures K.At(t.words, t.esp0 - 8) == c.cs && K.At(t.words, t.esp0 - 9) == c.eip
    ensures Nested(t.words, t.active) && Pending(t.words, t.active) == Pending(s.words, s.active)
  {
    var e := K.Trap(FrameWords(c));
    K.StepKeepsInv(Repaired, s, e);
    forall a | a >= s.active.top.base ensures K.At(t.words, a) == K.At(s.words, a) {
      K.StepKeepsWords(Repaired, s, e, a);
    }
    PendingKept(s.words, t.words, s.active);
    forall i | 0 <= i < K.FRAME ensures K.At(t.words, s.esp0 - 1 - i) == FrameWords(c)[i] {
      K.StoreDownAt(s.words, s.esp0, FrameWords(c), s.esp0 - 1 - i);
    }
    FrameRoundTrip(t.words, s.esp0, c);
    assert FrameWords(c)[7] == c.cs && FrameWords(c)[8] == c.eip;
    assert K.At(t.words, s.esp0 - 1 - 7) == c.cs && K.At(t.words, s.esp0 - 1 - 8) == c.eip;
  }

  /** The C code's pushes and ScEnterV86 leave every word from the old ESP up alone. */
  lemma EnterKeeps(s: K.State, ret: K.Word, f: Frames, s': K.State)
    requires K.Inv(Repaired, s) && !s.inGuest && K.Below(s, s.esp) && s' == Enter(s, ret, f)
    ensures K.Inv(Repaired, s') && s'.inGuest && s'.active.On? && s'.active.under == s.active
    ensures K.At(s'.words, s'.active.top.base + 6) == ret && s'.active.top.base + 7 <= s.esp
    ensures forall a | a >= s.esp :: K.At(s'.words, a) == K.At(s.words, a)
    ensures s'.active.top.base == s.esp - |f.locals| - 7
    ensures forall i | 0 <= i < |f.locals| :: K.At(s'.words, s.esp - 1 - i) == f.locals[i]
  {
    var pushed := f.locals + [ret];
    var s1 := s.(words := K.StoreDown(s.words, s.esp, pushed), esp := s.esp - |f.locals| - 1);
    forall a ensures K.At(s1.words, a) == if s1.esp <= a < s.esp then pushed[s.esp - 1 - a] else K.At(s.words, a) {
      K.StoreDownAt(s.words, s.esp, pushed, a);
    }
    K.BlocksFrame(Repaired, s.words, s1.words, s.active);
    K.StepKeepsInv(Repaired, s1, K.Enter(f.saved));
    forall a | a >= s1.esp ensures K.At(s'.words, a) == K.At(s1.words, a) {
      K.StoreDownAt(s1.words, s1.esp, K.Pushed(Repaired, s1, f.saved), a);
      K.StoreDownAt(K.StoreDown(s1.words, s1.esp, K.Pushed(Repaired, s1, f.saved)), s1.esp - 6, seq(9, _ => 0), a);
    }
  }

  lemma CallStep(k: K.State, ctx: M.Context, mem: M.Memory, f: Frames, t: K.State, k': K.State)
    requires Inv(InGuest(k, ctx, mem)) && t == Trapped(k, ctx) && k' == Enter(t, MONITOR, f)
    ensures K.Inv(Repaired, k') && k'.inGuest && k'.active.On? && Nested(k'.words, k'.active)
    ensures Pending(k'.words, k'.active) == On(M.Resumed(Repaired, ctx), Pending(k.words, k.active))
  {
    TrapKeeps(k, ctx, t);
    EnterKeeps(t, MONITOR, f, k');
    SameFrame(t.words, k'.words, t.esp0);
    PendingKept(t.words, k'.words, t.active);
  }

  lemma ReturnStep(k: K.State, ctx: M.Context, mem: M.Memory, t: K.State, s': State)
    requires Inv(InGuest(k, ctx, mem)) && t == Trapped(k, ctx)
    requires s' == Reentered(K.Step(Repaired, t, K.Reenter), mem)
    ensures Inv(s') && Abstract(s') == M.Reenter(Pending(k.words, k.active), mem)
  {
    TrapKeeps(k, ctx, t);
    K.StepKeepsInv(Repaired, t, K.Reenter);
    MarkedSame(t.words, t.active.under);
  }

  /** One instruction on the kernel stack is one step of the monitor. */
  lemma StepRefines(g: M.Guest, f: Frames, s: State, s': State)
    requires Inv(s) && s' == Step(g, f, s)
    ensures Inv(s') && Abstract(s') == M.Step(Repaired, g, Abstract(s))
  {
    if s.InGuest? && M.Decode(g, s.context, s.mem) != M.Plain {
      var InGuest(k, ctx, mem) := s;
      var t := Trapped(k, ctx);
      TrapKeeps(k, ctx, t);
      match M.Decode(g, ctx, mem)
      case Int(vector) => CallStep(k, ctx, mem, f, t, Enter(t, MONITOR, f));
      case Iret => ReturnStep(k, ctx, mem, t, s');
      case _ =>
    }
  }

  // ---- Runs

  lemma StepKeepsInv(g: M.Guest, f: Frames, s: State)
    requires Inv(s)
    ensures Inv(Step(g, f, s))
  {
    StepRefines(g, f, s, Step(g, f, s));
  }

  /** As many instructions as there are frames to use. */
  function Run(g: M.Guest, s: State, fs: seq<Frames>): State
    requires Inv(s)
    decreases |fs|
  {
    if fs == [] then s
    else
      StepKeepsInv(g, fs[0], s);
      Run(g, Step(g, fs[0], s), fs[1..])
  }

  lemma {:induction false} RunRefines(g: M.Guest, s: State, fs: seq<Frames>)
    requires Inv(s)
    ensures Abstract(Run(g, s, fs)) == M.Steps(Repaired, g, |fs|, Abstract(s))
    decreases |fs|
  {
    if fs != [] {
      StepRefines(g, fs[0], s, Step(g, fs[0], s));
      RunRefines(g, Step(g, fs[0], s), fs[1..]);
    }
  }

  /** Kernel code that is not inside any ScEnterV86 enters the guest. */
  function Start(idle: K.State, f: Frames, ctx: M.Context, mem: M.Memory): (s: State)
    requires idle.active.Bottom? && !idle.inGuest
    ensures Inv(s) && Abstract(s) == M.Running(Bottom, ctx, mem)
  {
    EnterKeeps(idle, KERNEL, f, Enter(idle, KERNEL, f));
    InGuest(Enter(idle, KERNEL, f), ctx, mem)
  }

  /** Whatever the C code puts on the stack, `n` instructions later the kernel's call of
      ScEnterV86 has returned with this memory. */
  ghost predicate ReturnsAfter(g: M.Guest, start: State, n: nat, end: M.Memory)
    requires Inv(start)
  {
    forall fs: seq<Frames> | |fs| == n :: Run(g, start, fs) == Back(end)
  }

  /** If the kernel's call returns, it is with the guest memory that INT-as-call and
      IRET-as-return gives. */
  lemma ReturnIsCall(g: M.Guest, idle: K.State, f: Frames, ctx: M.Context, mem: M.Memory, fs: seq<Frames>)
    requires idle.active.Bottom? && !idle.inGuest
    requires Run(g, Start(idle, f, ctx, mem), fs).Back?
    ensures M.Call(Repaired, g, |fs|, ctx, mem) == Some(Run(g, Start(idle, f, ctx, mem), fs).mem)
  {
    var start := Start(idle, f, ctx, mem);
    RunRefines(g, start, fs);
    var end := Run(g, start, fs);
    var k, r := M.RunIsCall(Repaired, g, |fs|, Bottom, ctx, mem, end.mem);
    M.ReturnedStays(Repaired, g, |fs| - k, r);
  }

  /** If the interpreter has a result, the kernel's call returns with it. */
  lemma CallReturns(g: M.Guest, idle: K.State, f: Frames, ctx: M.Context, mem: M.Memory, fuel: nat) returns (n: nat)
    requires idle.active.Bottom? && !idle.inGuest && M.Call(Repaired, g, fuel, ctx, mem).Some?
    ensures ReturnsAfter(g, Start(idle, f, ctx, mem), n, M.Call(Repaired, g, fuel, ctx, mem).value)
  {
    var start := Start(idle, f, ctx, mem);
    n := M.CallIsRun(Repaired, g, fuel, Bottom, ctx, mem);
    forall fs: seq<Frames> | |fs| == n
      ensures Run(g, start, fs) == Back(M.Call(Repaired, g, fuel, ctx, mem).value)
    {
      RunRefines(g, start, fs);
    }
  }

  /** For every guest: the monitor on the kernel stack comes back to the kernel with a memory
      exactly when the interpreter gives that memory, whatever C code puts on the stack. */
  lemma StackRefinesCalls(g: M.Guest, idle: K.State, f: Frames, ctx: M.Context, mem: M.Memory, end: M.Memory)
    requires idle.active.Bottom? && !idle.inGuest
    ensures (exists n: nat :: ReturnsAfter(g, Start(idle, f, ctx, mem), n, end)) <==>
            (exists fuel: nat :: M.Call(Repaired, g, fuel, ctx, mem) == Some(end))
  {
    var start := Start(idle, f, ctx, mem);
    if n: nat :| ReturnsAfter(g, start, n, end) {
      var fs: seq<Frames> := seq(n, _ => f);
      assert Run(g, start, fs) == Back(end);
      ReturnIsCall(g, idle, f, ctx, mem, fs);
      assert M.Call(Repaired, g, |fs|, ctx, mem) == Some(end);
    }
    if fuel: nat :| M.Call(Repaired, g, fuel, ctx, mem) == Some(end) {
      var n := CallReturns(g, idle, f, ctx, mem, fuel);
    }
  }
}
