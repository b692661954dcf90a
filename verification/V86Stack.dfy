/** The kernel stack under nested ScEnterV86 calls, word by word. Addresses count dwords
    and the stack grows toward lower ones. */
module V86Stack {
  import opened Text
  import opened Stacks

  /** Whatever a dword of the stack holds. */
  type Word = int
  type Memory = map<int, Word>

  function At(m: Memory, a: int): Word {
    if a in m then m[a] else 0
  }

  /** What the C calling convention makes ScEnterV86 preserve, and EFLAGS. */
  datatype Saved = Saved(ebp: Word, edi: Word, esi: Word, ebx: Word, eflags: Word)

  /** A ScEnterV86 that has not been re-entered. `base` is where its saved block starts,
      `saved` and `outerEsp0` what it found; `nested` is history: another entry above it
      has come and gone. */
  datatype Activation = Activation(base: int, saved: Saved, outerEsp0: Word, nested: bool)

  datatype State = State(words: Memory, esp: int, esp0: int, inGuest: bool, active: Stack<Activation>)

  datatype Event =
    | Enter(saved: Saved)               // C code calls ScEnterV86 with these registers
    | Trap(frame: seq<Word>)            // #GP from the guest, and the stub's pushes
    | Move(esp: int)                    // calls, pushes, pops and returns of kernel C code
    | Write(address: int, value: Word)  // a store into the frames of kernel C code
    | Resume                            // the #GP handler's iret back to the guest
    | Reenter                           // the caller of ScEnterV86 goes on

  /** The CPU pushes GS down to EIP, and the stub its eight registers. */
  const FRAME := 17

  /** Words below the saved block where ESP0 is put: as written one is left over. */
  function Gap(v: Version): int {
    if v == AsWritten then 1 else 0
  }

  /** EBP, EDI, ESI, EBX and EFLAGS; repaired, the outer ESP0 is saved above them. */
  function BlockSize(v: Version): int {
    if v == AsWritten then 5 else 6
  }

  /** Kernel C code leaves everything from the innermost saved block up alone. */
  predicate Below(s: State, a: int) {
    s.active.On? ==> a < s.active.top.base
  }

  predicate Enabled(s: State, e: Event) {
    match e
    case Enter(_) => !s.inGuest && Below(s, s.esp)
    case Trap(frame) => s.inGuest && |frame| == FRAME && s.active.On?
    case Move(esp) => !s.inGuest && Below(s, esp)
    case Write(address, _) => !s.inGuest && Below(s, address)
    case Resume => !s.inGuest && s.active.On?
    case Reenter => !s.inGuest && s.active.On?
  }

  /** Pushes, the first word highest. */
  function StoreDown(m: Memory, from: int, ws: seq<Word>): Memory
    decreases |ws|
  {
    if ws == [] then m else StoreDown(m[from - 1 := ws[0]], from - 1, ws[1..])
  }

  /** What the block that ESP0 leads to would restore. */
  function Found(v: Version, s: State): Saved {
    var b := s.esp0 + Gap(v);
    Saved(At(s.words, b), At(s.words, b + 1), At(s.words, b + 2), At(s.words, b + 3), At(s.words, b + 4))
  }

  function MarkNested(active: Stack<Activation>): Stack<Activation> {
    if active.Bottom? then active else On(active.top.(nested := true), active.under)
  }

  /** ScEnterV86's pushes. */
  function Pushed(v: Version, s: State, r: Saved): seq<Word> {
    (if v == AsWritten then [] else [s.esp0]) + [r.eflags, r.ebx, r.esi, r.edi, r.ebp]
  }

  function Step(v: Version, s: State, e: Event): State
    requires Enabled(s, e)
  {
    match e
    case Enter(r) =>
      var base := s.esp - BlockSize(v);
      // The interrupt frame that takes the CPU to the guest is pushed and consumed here.
      var words := StoreDown(StoreDown(s.words, s.esp, Pushed(v, s, r)), base, seq(9, _ => 0));
      State(words, base, base - Gap(v), true, On(Activation(base, r, s.esp0, false), s.active))
    case Trap(frame) => s.(words := StoreDown(s.words, s.esp0, frame), esp := s.esp0 - FRAME, inGuest := false)
    case Move(esp) => s.(esp := esp)
    case Write(address, value) => s.(words := s.words[address := value])
    case Resume => s.(inGuest := true)
    case Reenter =>
      // As written nothing puts the outer ESP0 back.
      var block := s.esp0 + Gap(v);
      s.(esp := block + BlockSize(v),
         esp0 := if v == AsWritten then s.esp0 else At(s.words, block + 5),
         active := MarkNested(s.active.under))
  }

  // ---- The invariant

  predicate Intact(v: Version, m: Memory, a: Activation) {
    && At(m, a.base) == a.saved.ebp && At(m, a.base + 1) == a.saved.edi && At(m, a.base + 2) == a.saved.esi
    && At(m, a.base + 3) == a.saved.ebx && At(m, a.base + 4) == a.saved.eflags
    && (v == Repaired ==> At(m, a.base + 5) == a.outerEsp0)
  }

  /** Every saved block is as it was pushed, each below the one before, and repaired each
      remembers the ESP0 that leads to the one before. */
  predicate Blocks(v: Version, m: Memory, active: Stack<Activation>) {
    active.On? ==>
      && Intact(v, m, active.top)
      && Blocks(v, m, active.under)
      && (active.under.On? ==>
            && active.top.base + BlockSize(v) <= active.under.top.base
            && (v == Repaired ==> active.top.outerEsp0 == active.under.top.base))
  }

  /** ESP0 leads to the innermost block, except that as written it stays lower once a
      nested entry has returned. */
  predicate Inv(v: Version, s: State) {
    && Blocks(v, s.words, s.active)
    && (s.inGuest ==> s.active.On?)
    && (s.active.On? ==>
          if v == AsWritten && s.active.top.nested then s.esp0 + Gap(v) < s.active.top.base
          else s.esp0 + Gap(v) == s.active.top.base)
  }

  lemma StoreDownAt(m: Memory, from: int, ws: seq<Word>, a: int)
    ensures At(StoreDown(m, from, ws), a) == if from - |ws| <= a < from then ws[from - 1 - a] else At(m, a)
    decreases |ws|
  {
    if ws != [] { StoreDownAt(m[from - 1 := ws[0]], from - 1, ws[1..], a); }
  }

  /** Stores below the innermost block leave all blocks alone. */
  lemma {:induction false} BlocksFrame(v: Version, m: Memory, m': Memory, active: Stack<Activation>)
    requires Blocks(v, m, active)
    requires active.On? ==> forall a | a >= active.top.base :: At(m', a) == At(m, a)
    ensures Blocks(v, m', active)
    decreases active
  {
    if active.On? { BlocksFrame(v, m, m', active.under); }
  }

  /** No step changes a word at or above the innermost active caller's saved block: ESP0 is
      below it, for the code as written too. */
  lemma StepKeepsWords(v: Version, s: State, e: Event, a: int)
    requires Inv(v, s) && Enabled(s, e) && s.active.On? && a >= s.active.top.base
    ensures At(Step(v, s, e).words, a) == At(s.words, a)
  {
    match e
    case Enter(r) =>
      StoreDownAt(s.words, s.esp, Pushed(v, s, r), a);
      StoreDownAt(StoreDown(s.words, s.esp, Pushed(v, s, r)), s.esp - BlockSize(v), seq(9, _ => 0), a);
    case Trap(frame) => StoreDownAt(s.words, s.esp0, frame, a);
    case _ =>
  }

  lemma EnterSaves(v: Version, s: State, r: Saved)
    requires Enabled(s, Enter(r))
    ensures var s' := Step(v, s, Enter(r)); Intact(v, s'.words, s'.active.top)
  {
    var base := s.esp - BlockSize(v);
    var first := StoreDown(s.words, s.esp, Pushed(v, s, r));
    forall a | base <= a < s.esp
      ensures At(Step(v, s, Enter(r)).words, a) == Pushed(v, s, r)[s.esp - 1 - a]
    {
      StoreDownAt(s.words, s.esp, Pushed(v, s, r), a);
      StoreDownAt(first, base, seq(9, _ => 0), a);
    }
  }

  /** The stack that an entry leaves, word by word below the caller's ESP, and where a trap
      will start: just below the block, or as written one word lower. */
  lemma EnterLayout(v: Version, s: State, r: Saved, s': State)
    requires Enabled(s, Enter(r)) && s' == Step(v, s, Enter(r))
    ensures s'.esp0 == s.esp - 6
    ensures var top := if v == AsWritten then s.esp else s.esp - 1;
            && At(s'.words, top - 1) == r.eflags && At(s'.words, top - 2) == r.ebx && At(s'.words, top - 3) == r.esi
            && At(s'.words, top - 4) == r.edi && At(s'.words, top - 5) == r.ebp
            && (v == Repaired ==> At(s'.words, s.esp - 1) == s.esp0)
  {
    EnterSaves(v, s, r);
  }

  /** A trap pushes its frame from ESP0 down, the first word highest. */
  lemma TrapLayout(v: Version, s: State, frame: seq<Word>, i: nat, s': State)
    requires Enabled(s, Trap(frame)) && s' == Step(v, s, Trap(frame)) && i < 17
    ensures s'.esp == s.esp0 - 17 && !s'.inGuest && At(s'.words, s.esp0 - 1 - i) == frame[i]
  {
    StoreDownAt(s.words, s.esp0, frame, s.esp0 - 1 - i);
  }

  /** Kernel C code can put ESP and a word wherever it is allowed to. */
  lemma CodeSteps(v: Version, s: State, esp: int, a: int, value: Word, b: int)
    requires Enabled(s, Move(esp)) && Enabled(s, Write(a, value))
    ensures Step(v, s, Move(esp)).esp == esp
    ensures At(Step(v, s, Write(a, value)).words, b) == if b == a then value else At(s.words, b)
  {
  }

  lemma StepKeepsInv(v: Version, s: State, e: Event)
    requires Inv(v, s) && Enabled(s, e)
    ensures Inv(v, Step(v, s, e))
  {
    var s' := Step(v, s, e);
    if s.active.On? {
      forall a | a >= s.active.top.base ensures At(s'.words, a) == At(s.words, a) { StepKeepsWords(v, s, e, a); }
    }
    BlocksFrame(v, s.words, s'.words, s.active);
    if e.Enter? { EnterSaves(v, s, e.saved); }
  }

  // ---- Runs

  predicate Legal(v: Version, s: State, es: seq<Event>)
    decreases |es|
  {
    es != [] ==> Enabled(s, es[0]) && Legal(v, Step(v, s, es[0]), es[1..])
  }

  function Run(v: Version, s: State, es: seq<Event>): State
    requires Legal(v, s, es)
    decreases |es|
  {
    if es == [] then s else Run(v, Step(v, s, es[0]), es[1..])
  }

  /** The caller at depth `d` is not re-entered during the run. */
  predicate Stays(v: Version, s: State, es: seq<Event>, d: nat)
    requires Legal(v, s, es)
    decreases |es|
  {
    s.active.Depth() >= d && (es != [] ==> Stays(v, Step(v, s, es[0]), es[1..], d))
  }

  /** The activation at depth `d`, the outermost being at depth 1. */
  function Active(active: Stack<Activation>, d: nat): Activation
    requires 0 < d <= active.Depth()
  {
    if active.Depth() == d then active.top else Active(active.under, d)
  }

  lemma BasesDescend(v: Version, m: Memory, active: Stack<Activation>, d: nat)
    requires Blocks(v, m, active) && 0 < d <= active.Depth()
    ensures active.top.base <= Active(active, d).base
  {
    if active.Depth() != d { BasesDescend(v, m, active.under, d); }
  }

  lemma MarkKeepsDepth(active: Stack<Activation>)
    ensures MarkNested(active).Depth() == active.Depth()
  {
  }

  /** Across any nesting of entries, traps, handler code and returns, no word at or above
      an active caller's saved block changes until that caller is re-entered. */
  lemma {:induction false} RunKeepsWords(v: Version, s: State, es: seq<Event>, d: nat, a: int)
    requires Inv(v, s) && Legal(v, s, es) && d > 0 && Stays(v, s, es, d) && a >= Active(s.active, d).base
    ensures var s' := Run(v, s, es);
            && Inv(v, s') && s'.active.Depth() >= d
            && At(s'.words, a) == At(s.words, a)
            && Active(s'.active, d).base == Active(s.active, d).base
            && Active(s'.active, d).saved == Active(s.active, d).saved
            && Active(s'.active, d).outerEsp0 == Active(s.active, d).outerEsp0
    decreases |es|
  {
    if es != [] {
      var s1 := Step(v, s, es[0]);
      BasesDescend(v, s.words, s.active, d);
      StepKeepsWords(v, s, es[0], a);
      StepKeepsInv(v, s, es[0]);
      if es[0].Reenter? { MarkKeepsDepth(s.active.under); }
      assert s1.active.Depth() >= d;
      ActiveKept(s, s1, v, es[0], d);
      RunKeepsWords(v, s1, es[1..], d, a);
    }
  }

  lemma ActiveKept(s: State, s1: State, v: Version, e: Event, d: nat)
    requires Enabled(s, e) && s1 == Step(v, s, e) && 0 < d <= s.active.Depth() && d <= s1.active.Depth()
    ensures Active(s1.active, d).base == Active(s.active, d).base
    ensures Active(s1.active, d).saved == Active(s.active, d).saved
    ensures Active(s1.active, d).outerEsp0 == Active(s.active, d).outerEsp0
  {
    if e.Reenter? { MarkKeepsDepth(s.active.under); }
  }

  predicate NoEnter(es: seq<Event>) {
    forall e | e in es :: !e.Enter?
  }

  /** Something has been entered above the activation at depth `d`, and may have returned. */
  predicate Disturbed(s: State, d: nat)
    requires 0 < d <= s.active.Depth()
  {
    s.active.Depth() > d || Active(s.active, d).nested
  }

  lemma StepDisturbs(v: Version, s: State, e: Event, s': State, d: nat)
    requires Enabled(s, e) && s' == Step(v, s, e) && 0 < d <= s.active.Depth() && d <= s'.active.Depth()
    ensures Disturbed(s', d) <==> Disturbed(s, d) || e.Enter?
  {
    if e.Reenter? { MarkKeepsDepth(s.active.under); }
  }

  lemma {:induction false} RunDisturbs(v: Version, s: State, es: seq<Event>, d: nat)
    requires Legal(v, s, es) && d > 0 && Stays(v, s, es, d)
    ensures Run(v, s, es).active.Depth() >= d && (Disturbed(Run(v, s, es), d) <==> Disturbed(s, d) || !NoEnter(es))
    decreases |es|
  {
    if es != [] {
      var s1 := Step(v, s, es[0]);
      assert s1.active.Depth() >= d by { assert Stays(v, s1, es[1..], d); }
      StepDisturbs(v, s, es[0], s1, d);
      RunDisturbs(v, s1, es[1..], d);
      assert NoEnter(es) <==> !es[0].Enter? && NoEnter(es[1..]) by { assert es == [es[0]] + es[1..]; }
    }
  }

  /** `es` is what happens from the entry that takes `s` to `s1` until that caller is about
      to be re-entered, in `s2`. */
  predicate Span(v: Version, s: State, r: Saved, es: seq<Event>, s1: State, s2: State) {
    && Inv(v, s) && Enabled(s, Enter(r)) && s1 == Step(v, s, Enter(r))
    && Legal(v, s1, es) && Stays(v, s1, es, s1.active.Depth()) && s2 == Run(v, s1, es)
    && s2.active.Depth() == s1.active.Depth() && Enabled(s2, Reenter)
  }

  /** ESP0 leads to the caller's own block, and so the caller gets its stack pointer back, if
      and only if the code is repaired or nothing was entered in between: as written, after
      any nested call a re-entry takes the block of a call that has returned. */
  lemma OwnBlockExactly(v: Version, s: State, r: Saved, es: seq<Event>, s1: State, s2: State)
    requires Span(v, s, r, es, s1, s2)
    ensures s2.esp0 + Gap(v) == s2.active.top.base <==> v == Repaired || NoEnter(es)
    ensures Step(v, s2, Reenter).esp == s.esp <==> v == Repaired || NoEnter(es)
  {
    var d := s1.active.Depth();
    StepKeepsInv(v, s, Enter(r));
    RunKeepsWords(v, s1, es, d, s1.active.top.base);
    RunDisturbs(v, s1, es, d);
  }

  /** A caller that is re-entered finds its own registers and, repaired, its own ESP0,
      whatever happened since it entered; as written if nothing was entered in between. */
  lemma EnterReenterRoundTrip(v: Version, s: State, r: Saved, es: seq<Event>, s1: State, s2: State)
    requires Span(v, s, r, es, s1, s2) && (v == Repaired || NoEnter(es))
    ensures Found(v, s2) == r && s2.esp0 + Gap(v) == s2.active.top.base
    ensures Step(v, s2, Reenter).esp == s.esp
    ensures v == Repaired ==> Step(v, s2, Reenter).esp0 == s.esp0
  {
    OwnBlockExactly(v, s, r, es, s1, s2);
    StepKeepsInv(v, s, Enter(r));
    RunKeepsWords(v, s1, es, s1.active.Depth(), s1.active.top.base);
  }

  // ---- ScOnExceptRetReenterCallerV86

  /** What RestTrapRegs pops from a trap frame, and the return address above it. */
  datatype Popped = Popped(eax: Word, ebx: Word, ecx: Word, edx: Word, esi: Word, edi: Word, ebp: Word, eip: Word)

  function PopFrame(m: Memory, at: int): Popped {
    Popped(At(m, at), At(m, at + 1), At(m, at + 2), At(m, at + 3), At(m, at + 4), At(m, at + 5),
           At(m, at + 7), At(m, at + 8))
  }

  /** The stores into the trap frame under ESP0. As written each address is one word low, the
      block is read from the left-over word on, and the last three stores go to one slot. */
  function Patched(v: Version, m: Memory, esp0: int): Memory {
    if v == AsWritten then
      var m1 := m[esp0 - 1 + 6 - FRAME := At(m, esp0)];
      var m2 := m1[esp0 - 1 + 4 - FRAME := At(m1, esp0 + 1)];
      var m3 := m2[esp0 - 1 + 4 - FRAME := At(m2, esp0 + 2)];
      m3[esp0 - 1 + 4 - FRAME := At(m3, esp0 + 3)]
    else
      m[esp0 - FRAME + 7 := At(m, esp0)][esp0 - FRAME + 5 := At(m, esp0 + 1)]
       [esp0 - FRAME + 4 := At(m, esp0 + 2)][esp0 - FRAME + 1 := At(m, esp0 + 3)]
  }

  lemma PatchedFrame(v: Version, m: Memory, esp0: int)
    ensures var guest, b := PopFrame(m, esp0 - FRAME), esp0 + Gap(v);
            PopFrame(Patched(v, m, esp0), esp0 - FRAME) ==
              if v == Repaired then guest.(ebp := At(m, b), edi := At(m, b + 1), esi := At(m, b + 2), ebx := At(m, b + 3))
              else guest.(edi := At(m, esp0), edx := At(m, b + 2))
    ensures forall a | a >= esp0 + Gap(v) :: At(Patched(v, m, esp0), a) == At(m, a)
  {
  }

  /** Whatever happened since the caller entered, the registers popped after the stores are
      the caller's EBP, EDI, ESI and EBX and otherwise the guest's. As written they are the
      guest's, but for EDI, which is the left-over word, and EDX, which is the caller's ESI;
      so with no return address stored either, control goes back to the guest. */
  lemma ReenteredRegisters(v: Version, s: State, r: Saved, es: seq<Event>, s1: State, s2: State)
    requires Span(v, s, r, es, s1, s2) && (v == Repaired || NoEnter(es))
    ensures var guest := PopFrame(s2.words, s2.esp0 - FRAME);
            PopFrame(Patched(v, s2.words, s2.esp0), s2.esp0 - FRAME) ==
              if v == Repaired then guest.(ebp := r.ebp, edi := r.edi, esi := r.esi, ebx := r.ebx)
              else guest.(edi := At(s2.words, s2.esp0), edx := r.esi)
    ensures forall a | a >= s2.active.top.base :: At(Patched(v, s2.words, s2.esp0), a) == At(s2.words, a)
  {
    EnterReenterRoundTrip(v, s, r, es, s1, s2);
    PatchedFrame(v, s2.words, s2.esp0);
  }
}
