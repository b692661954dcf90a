/** The V86 monitor with nested ScEnterV86 calls, against the interpreter it stands for:
    one in which INT is a call and IRET its return (Intel 80386 Programmer's Reference
    Manual, sections 15.2 and 15.3). */
module V86Monitor {
  import opened Text
  import opened Basics
  import opened Stacks

  type Memory = map<nat, Byte>

  /** Every register of a trap frame but CS and EIP: GS down to EFLAGS, then EBP down to EAX. */
  type Registers = r: seq<nat> | |r| == 15 witness seq(15, _ => 0)

  datatype Context = Context(cs: nat, eip: nat, others: Registers)

  function Peek(mem: Memory, address: nat): Byte {
    if address in mem then mem[address] else 0
  }

  /** MK_LP, whose parameters are WORDs. */
  function Linear(seg: nat, off: nat): nat {
    seg % 0x1_0000 * 16 + off % 0x1_0000
  }

  function IvtWord(mem: Memory, address: nat): nat {
    Peek(mem, address) as int + 0x100 * Peek(mem, address + 1) as int
  }

  /** What the guest does that the machine does not decide: which other opcodes fault, and
      what an instruction that does not fault does. */
  datatype Guest = Guest(faults: Byte -> bool, cpu: (Context, Memory) -> (Context, Memory))

  datatype Instruction = Int(vector: Byte) | Iret | CliSti | Unknown | Plain

  function Decode(g: Guest, ctx: Context, mem: Memory): Instruction {
    var ins := Linear(ctx.cs, ctx.eip);
    match Peek(mem, ins)
    case 0xCD => Int(Peek(mem, ins + 1))
    case 0xCF => Iret
    case 0xFA => CliSti
    case 0xFB => CliSti
    case op => if g.faults(op) then Unknown else Plain
  }

  /** The copied context with CS and EIP from the interrupt vector table. */
  function Handler(ctx: Context, mem: Memory, vector: Byte): Context {
    ctx.(cs := IvtWord(mem, vector * 4 + 2), eip := IvtWord(mem, vector * 4))
  }

  /** The trap frame that the #GP handler returns through after an INT: as written EIP
      still points at the INT; repaired, past its two bytes. */
  function Resumed(v: Version, ctx: Context): Context {
    if v == AsWritten then ctx else ctx.(eip := ctx.eip + 2)
  }

  /** Everything but INT and IRET. An unknown instruction is left where it is. */
  function Advance(g: Guest, ctx: Context, mem: Memory): (Context, Memory) {
    match Decode(g, ctx, mem)
    case CliSti => (ctx.(eip := ctx.eip + 1), mem)
    case Plain => g.cpu(ctx, mem)
    case _ => (ctx, mem)
  }

  // ---- The simple form

  /** The memory when the code at `ctx` has executed its own IRET. */
  function Call(v: Version, g: Guest, fuel: nat, ctx: Context, mem: Memory): Option<Memory> {
    if fuel == 0 then None
    else
      match Decode(g, ctx, mem)
      case Iret => Some(mem)
      case Int(vector) =>
        var r := Call(v, g, fuel - 1, Handler(ctx, mem, vector), mem);
        if r == None then None else Call(v, g, fuel - 1, Resumed(v, ctx), r.value)
      case _ =>
        var (ctx', mem') := Advance(g, ctx, mem);
        Call(v, g, fuel - 1, ctx', mem')
  }

  lemma {:induction false} MoreFuel(v: Version, g: Guest, fuel: nat, more: nat, ctx: Context, mem: Memory)
    requires Call(v, g, fuel, ctx, mem) != None && fuel <= more
    ensures Call(v, g, more, ctx, mem) == Call(v, g, fuel, ctx, mem)
    decreases fuel
  {
    match Decode(g, ctx, mem)
    case Iret =>
    case Int(vector) =>
      var r := Call(v, g, fuel - 1, Handler(ctx, mem, vector), mem);
      MoreFuel(v, g, fuel - 1, more - 1, Handler(ctx, mem, vector), mem);
      MoreFuel(v, g, fuel - 1, more - 1, Resumed(v, ctx), r.value);
    case _ =>
      var (ctx', mem') := Advance(g, ctx, mem);
      MoreFuel(v, g, fuel - 1, more - 1, ctx', mem');
  }

  // ---- The machine

  /** The guest runs with the trap frames of interrupted ScVirtual86_Int callers on the
      kernel stack, until the outermost ScEnterV86 has been re-entered. */
  datatype Machine =
    | Running(pending: Stack<Context>, current: Context, mem: Memory)
    | Returned(mem: Memory)

  /** ScOnExceptRetReenterCallerV86: the caller on top goes on. */
  function Reenter(pending: Stack<Context>, mem: Memory): Machine {
    match pending
    case Bottom => Returned(mem)
    case On(caller, under) => Running(under, caller, mem)
  }

  function Step(v: Version, g: Guest, m: Machine): Machine {
    match m
    case Returned(_) => m
    case Running(pending, ctx, mem) =>
      match Decode(g, ctx, mem)
      case Int(vector) => Running(On(Resumed(v, ctx), pending), Handler(ctx, mem, vector), mem)
      case Iret => Reenter(pending, mem)
      case _ =>
        var (ctx', mem') := Advance(g, ctx, mem);
        Running(pending, ctx', mem')
  }

  /** The byte at a linear address. */
  predicate Holds(mem: Memory, address: nat, b: nat) {
    address in mem && mem[address] == b
  }

  /** INT n, by its bytes: the handler's offset is the low word at 4n and its segment the high
      one, and the interrupted code will go on past the two bytes of the INT, or as written at
      the INT. */
  lemma IntByBytes(v: Version, g: Guest, pending: Stack<Context>, r: Registers, mem: Memory,
                   cs: Word, ip: Word, n: Byte, seg: Word, off: Word)
    requires Holds(mem, cs * 16 + ip, 0xCD) && Holds(mem, cs * 16 + ip + 1, n)
    requires Holds(mem, 4 * n, off % 0x100) && Holds(mem, 4 * n + 1, off / 0x100)
    requires Holds(mem, 4 * n + 2, seg % 0x100) && Holds(mem, 4 * n + 3, seg / 0x100)
    ensures Step(v, g, Running(pending, Context(cs, ip, r), mem)) ==
            Running(On(Context(cs, if v == AsWritten then ip else ip + 2, r), pending), Context(seg, off, r), mem)
  {
  }

  /** IRET gives the last caller back. */
  lemma IretByByte(v: Version, g: Guest, pending: Stack<Context>, r: Registers, mem: Memory, cs: Word, ip: Word)
    requires Holds(mem, cs * 16 + ip, 0xCF)
    ensures Step(v, g, Running(pending, Context(cs, ip, r), mem)) ==
            if pending.Bottom? then Returned(mem) else Running(pending.under, pending.top, mem)
  {
    DecodeByByte(g, Context(cs, ip, r), mem, 0xCF);
  }

  lemma DecodeByByte(g: Guest, ctx: Context, mem: Memory, op: Byte)
    requires ctx.cs < 0x1_0000 && ctx.eip < 0x1_0000 && Holds(mem, ctx.cs * 16 + ctx.eip, op) && op != 0xCD
    ensures Decode(g, ctx, mem) ==
            if op == 0xCF then Iret else if op == 0xFA || op == 0xFB then CliSti else if g.faults(op) then Unknown else Plain
  {
  }

  /** CLI and STI take one byte. */
  lemma CliStiByByte(v: Version, g: Guest, pending: Stack<Context>, r: Registers, mem: Memory, cs: Word, ip: Word)
    requires Holds(mem, cs * 16 + ip, 0xFA) || Holds(mem, cs * 16 + ip, 0xFB)
    ensures Step(v, g, Running(pending, Context(cs, ip, r), mem)) == Running(pending, Context(cs, ip + 1, r), mem)
  {
    DecodeByByte(g, Context(cs, ip, r), mem, mem[cs * 16 + ip]);
  }

  /** Any other instruction that faults is left where it is, and one that does not is the
      processor's. */
  lemma OthersByByte(v: Version, g: Guest, pending: Stack<Context>, r: Registers, mem: Memory, cs: Word, ip: Word, op: Byte)
    requires Holds(mem, cs * 16 + ip, op) && op !in {0xCD, 0xCF, 0xFA, 0xFB}
    ensures var ctx := Context(cs, ip, r);
            Step(v, g, Running(pending, ctx, mem)) ==
              if g.faults(op) then Running(pending, ctx, mem) else Running(pending, g.cpu(ctx, mem).0, g.cpu(ctx, mem).1)
  {
    DecodeByByte(g, Context(cs, ip, r), mem, op);
  }

  function Steps(v: Version, g: Guest, n: nat, m: Machine): Machine {
    if n == 0 then m else Steps(v, g, n - 1, Step(v, g, m))
  }

  lemma {:induction false} StepsAdd(v: Version, g: Guest, a: nat, b: nat, m: Machine)
    ensures Steps(v, g, a + b, m) == Steps(v, g, b, Steps(v, g, a, m))
    decreases a
  {
    if a > 0 { StepsAdd(v, g, a - 1, b, Step(v, g, m)); }
  }

  lemma FirstStep(v: Version, g: Guest, n: nat, m: Machine, m1: Machine)
    requires m1 == Step(v, g, m)
    ensures Steps(v, g, 1 + n, m) == Steps(v, g, n, m1)
  {
  }

  /** Every call of the interpreter is a stretch of the machine's run that ends with the
      caller's frame back on top, untouched. */
  lemma {:induction false} CallIsRun(v: Version, g: Guest, fuel: nat, pending: Stack<Context>, ctx: Context, mem: Memory)
    returns (n: nat)
    requires Call(v, g, fuel, ctx, mem) != None
    ensures Steps(v, g, n, Running(pending, ctx, mem)) == Reenter(pending, Call(v, g, fuel, ctx, mem).value)
    decreases fuel
  {
    var m := Running(pending, ctx, mem);
    var m1 := Step(v, g, m);
    match Decode(g, ctx, mem)
    case Iret =>
      n := 1;
      FirstStep(v, g, 0, m, m1);
    case Int(vector) =>
      var r := Call(v, g, fuel - 1, Handler(ctx, mem, vector), mem);
      var a := CallIsRun(v, g, fuel - 1, On(Resumed(v, ctx), pending), Handler(ctx, mem, vector), mem);
      var b := CallIsRun(v, g, fuel - 1, pending, Resumed(v, ctx), r.value);
      StepsAdd(v, g, a, b, m1);
      FirstStep(v, g, a + b, m, m1);
      n := 1 + a + b;
    case _ =>
      var (ctx', mem') := Advance(g, ctx, mem);
      var a := CallIsRun(v, g, fuel - 1, pending, ctx', mem');
      FirstStep(v, g, a, m, m1);
      n := 1 + a;
  }

  /** Conversely, a run that gets out of a call is one that the interpreter has. */
  lemma {:induction false} RunIsCall(v: Version, g: Guest, n: nat, pending: Stack<Context>, ctx: Context, mem: Memory, end: Memory)
    returns (k: nat, r: Memory)
    requires Steps(v, g, n, Running(pending, ctx, mem)) == Returned(end)
    ensures k <= n && Call(v, g, n, ctx, mem) == Some(r)
    ensures Steps(v, g, n - k, Reenter(pending, r)) == Returned(end)
    decreases n
  {
    match Decode(g, ctx, mem)
    case Iret =>
      k, r := 1, mem;
    case Int(vector) =>
      var a, r1 := RunIsCall(v, g, n - 1, On(Resumed(v, ctx), pending), Handler(ctx, mem, vector), mem, end);
      var b, r2 := RunIsCall(v, g, n - 1 - a, pending, Resumed(v, ctx), r1, end);
      MoreFuel(v, g, n - 1 - a, n - 1, Resumed(v, ctx), r1);
      k, r := 1 + a + b, r2;
    case _ =>
      var (ctx', mem') := Advance(g, ctx, mem);
      var a, r1 := RunIsCall(v, g, n - 1, pending, ctx', mem', end);
      k, r := 1 + a, r1;
  }

  /** The monitor refines the interpreter: entered from the kernel, the guest comes back
      with a memory exactly when INT-as-call, IRET-as-return gives that memory. */
  lemma MonitorRefinesCalls(v: Version, g: Guest, ctx: Context, mem: Memory, end: Memory)
    ensures (exists n: nat :: Steps(v, g, n, Running(Bottom, ctx, mem)) == Returned(end)) <==>
            (exists fuel: nat :: Call(v, g, fuel, ctx, mem) == Some(end))
  {
    if n: nat :| Steps(v, g, n, Running(Bottom, ctx, mem)) == Returned(end) {
      var k, r := RunIsCall(v, g, n, Bottom, ctx, mem, end);
      ReturnedStays(v, g, n - k, r);
    }
    if fuel: nat :| Call(v, g, fuel, ctx, mem) == Some(end) {
      var n := CallIsRun(v, g, fuel, Bottom, ctx, mem);
    }
  }

  lemma ReturnedStays(v: Version, g: Guest, n: nat, mem: Memory)
    ensures Steps(v, g, n, Returned(mem)) == Returned(mem)
  {
  }

  /** At any depth, an INT whose handler comes back resumes its own caller, all registers
      intact, at the instruction after the INT. */
  lemma IntReturnsPastItself(g: Guest, fuel: nat, pending: Stack<Context>, ctx: Context, mem: Memory)
    returns (n: nat)
    requires Decode(g, ctx, mem).Int?
    requires Call(Repaired, g, fuel, Handler(ctx, mem, Decode(g, ctx, mem).vector), mem) != None
    ensures var after := Call(Repaired, g, fuel, Handler(ctx, mem, Decode(g, ctx, mem).vector), mem).value;
            Steps(Repaired, g, n, Running(pending, ctx, mem)) ==
            Running(pending, Context(ctx.cs, ctx.eip + 2, ctx.others), after)
  {
    var a := CallIsRun(Repaired, g, fuel, On(Resumed(Repaired, ctx), pending),
                       Handler(ctx, mem, Decode(g, ctx, mem).vector), mem);
    FirstStep(Repaired, g, a, Running(pending, ctx, mem), Step(Repaired, g, Running(pending, ctx, mem)));
    n := 1 + a;
  }

  // ---- The code as written

  /** The memory after the handler of the INT at `ctx` has been through `n` times. */
  function Rounds(g: Guest, fuel: nat, ctx: Context, mem: Memory, n: nat): Option<Memory>
    decreases n
  {
    if n == 0 then Some(mem)
    else
      match Decode(g, ctx, mem)
      case Int(vector) =>
        var r := Call(AsWritten, g, fuel, Handler(ctx, mem, vector), mem);
        if r == None then None else Rounds(g, fuel, ctx, r.value, n - 1)
      case _ => None
  }

  /** After `n` rounds the instruction at `ctx` is no INT any more, and from there the code
      comes back. */
  predicate Overwritten(g: Guest, fuel: nat, ctx: Context, mem: Memory, n: nat) {
    var r := Rounds(g, fuel, ctx, mem, n);
    r.Some? && !Decode(g, ctx, r.value).Int? && Call(AsWritten, g, fuel, ctx, r.value).Some?
  }

  lemma {:induction false} RoundsMoreFuel(g: Guest, fuel: nat, more: nat, ctx: Context, mem: Memory, n: nat)
    requires fuel <= more && Rounds(g, fuel, ctx, mem, n).Some?
    ensures Rounds(g, more, ctx, mem, n) == Rounds(g, fuel, ctx, mem, n)
    decreases n
  {
    if n > 0 {
      var h := Handler(ctx, mem, Decode(g, ctx, mem).vector);
      MoreFuel(AsWritten, g, fuel, more, h, mem);
      RoundsMoreFuel(g, fuel, more, ctx, Call(AsWritten, g, fuel, h, mem).value, n - 1);
    }
  }

  lemma OverwrittenMoreFuel(g: Guest, fuel: nat, more: nat, ctx: Context, mem: Memory, n: nat)
    requires fuel <= more && Overwritten(g, fuel, ctx, mem, n)
    ensures Overwritten(g, more, ctx, mem, n)
  {
    RoundsMoreFuel(g, fuel, more, ctx, mem, n);
    MoreFuel(AsWritten, g, fuel, more, ctx, Rounds(g, fuel, ctx, mem, n).value);
  }

  lemma FirstRound(g: Guest, fuel: nat, ctx: Context, mem: Memory, after: Memory, n: nat)
    requires Decode(g, ctx, mem).Int?
    requires Call(AsWritten, g, fuel, Handler(ctx, mem, Decode(g, ctx, mem).vector), mem) == Some(after)
    ensures Overwritten(g, fuel, ctx, mem, n + 1) == Overwritten(g, fuel, ctx, after, n)
  {
  }

  lemma {:induction false} ReturnsThenOverwritten(g: Guest, fuel: nat, ctx: Context, mem: Memory) returns (n: nat)
    requires Call(AsWritten, g, fuel, ctx, mem).Some?
    ensures Overwritten(g, fuel, ctx, mem, n)
    decreases fuel
  {
    if Decode(g, ctx, mem).Int? {
      var h := Handler(ctx, mem, Decode(g, ctx, mem).vector);
      var r := Call(AsWritten, g, fuel - 1, h, mem);
      n := ReturnsThenOverwritten(g, fuel - 1, ctx, r.value);
      MoreFuel(AsWritten, g, fuel - 1, fuel, h, mem);
      OverwrittenMoreFuel(g, fuel - 1, fuel, ctx, r.value, n);
      FirstRound(g, fuel, ctx, mem, r.value, n);
      n := n + 1;
    } else {
      n := 0;
    }
  }

  lemma {:induction false} OverwrittenThenReturns(g: Guest, fuel: nat, ctx: Context, mem: Memory, n: nat)
    requires Overwritten(g, fuel, ctx, mem, n)
    ensures Call(AsWritten, g, fuel + n, ctx, mem) == Call(AsWritten, g, fuel, ctx, Rounds(g, fuel, ctx, mem, n).value)
    decreases n
  {
    if n > 0 {
      var h := Handler(ctx, mem, Decode(g, ctx, mem).vector);
      MoreFuel(AsWritten, g, fuel, fuel + n - 1, h, mem);
      OverwrittenThenReturns(g, fuel, ctx, Call(AsWritten, g, fuel, h, mem).value, n - 1);
    }
  }

  /** As written the caller resumes at the INT itself, so the code comes back if and only if
      some number of rounds through its handler overwrites that INT and what is there then
      comes back. */
  lemma IntReturnsExactly(g: Guest, ctx: Context, mem: Memory)
    requires Decode(g, ctx, mem).Int?
    ensures (exists fuel: nat :: Call(AsWritten, g, fuel, ctx, mem).Some?) <==>
            (exists fuel: nat, n: nat :: Overwritten(g, fuel, ctx, mem, n))
  {
    if fuel: nat :| Call(AsWritten, g, fuel, ctx, mem).Some? {
      var n := ReturnsThenOverwritten(g, fuel, ctx, mem);
    }
    if fuel: nat, n: nat :| Overwritten(g, fuel, ctx, mem, n) {
      OverwrittenThenReturns(g, fuel, ctx, mem, n);
      assert Call(AsWritten, g, fuel + n, ctx, mem).Some?;
    }
  }

  /** However often this guest goes through the handler of its INT at `ctx`, starting from
      this memory, there is an INT there still. */
  ghost predicate NeverOverwritten(g: Guest, ctx: Context, mem: Memory) {
    forall f: nat, n: nat | Rounds(g, f, ctx, mem, n).Some? :: Decode(g, ctx, Rounds(g, f, ctx, mem, n).value).Int?
  }

  /** Then the guest never gets past it. */
  lemma IntRepeatsForever(g: Guest, fuel: nat, ctx: Context, mem: Memory)
    requires NeverOverwritten(g, ctx, mem)
    ensures Call(AsWritten, g, fuel, ctx, mem) == None
  {
    if Call(AsWritten, g, fuel, ctx, mem).Some? {
      var n := ReturnsThenOverwritten(g, fuel, ctx, mem);
      assert false;
    }
  }

  /** Code that meets no INT before its IRET. */
  predicate NoInt(g: Guest, fuel: nat, ctx: Context, mem: Memory) {
    fuel == 0 || match Decode(g, ctx, mem)
                 case Iret => true
                 case Int(_) => false
                 case _ => var (ctx', mem') := Advance(g, ctx, mem); NoInt(g, fuel - 1, ctx', mem')
  }

  /** Without an INT the two readings agree. */
  lemma {:induction false} AgreeWithoutInt(g: Guest, fuel: nat, ctx: Context, mem: Memory)
    requires NoInt(g, fuel, ctx, mem)
    ensures Call(AsWritten, g, fuel, ctx, mem) == Call(Repaired, g, fuel, ctx, mem)
    decreases fuel
  {
    if fuel > 0 && !Decode(g, ctx, mem).Iret? {
      var (ctx', mem') := Advance(g, ctx, mem);
      AgreeWithoutInt(g, fuel - 1, ctx', mem');
    }
  }

  /** The first INT on this guest's path, if it meets one before its IRET, is never
      overwritten by the handler that it calls. */
  ghost predicate IntStays(g: Guest, fuel: nat, ctx: Context, mem: Memory)
    decreases fuel
  {
    fuel > 0 ==>
      match Decode(g, ctx, mem)
      case Iret => true
      case Int(_) => NeverOverwritten(g, ctx, mem)
      case _ => var (ctx', mem') := Advance(g, ctx, mem); IntStays(g, fuel - 1, ctx', mem')
  }

  /** For a guest whose first INT is not overwritten, the text as written comes back if and
      only if the repaired one does and the guest meets no INT at all before its IRET. */
  lemma {:induction false} ReturnsExactly(g: Guest, fuel: nat, ctx: Context, mem: Memory)
    requires IntStays(g, fuel, ctx, mem)
    ensures Call(AsWritten, g, fuel, ctx, mem).Some? <==>
            Call(Repaired, g, fuel, ctx, mem).Some? && NoInt(g, fuel, ctx, mem)
    decreases fuel
  {
    if fuel > 0 {
      match Decode(g, ctx, mem)
      case Iret =>
      case Int(_) => IntRepeatsForever(g, fuel, ctx, mem);
      case _ =>
        var (ctx', mem') := Advance(g, ctx, mem);
        ReturnsExactly(g, fuel - 1, ctx', mem');
    }
  }

  // ---- The monitor's code

  /** `fuel` bounds how long the guest is watched; running out is reported as not done. */
  class Monitor {
    var mem: Memory
    var supervisorCall: bool

    /** ScEnterV86 until the guest's IRET is trapped. */
    method EnterV86(v: Version, g: Guest, fuel: nat, context: Context) returns (done: bool)
      modifies this
      requires supervisorCall
      ensures supervisorCall
      ensures done <==> Call(v, g, fuel, context, old(mem)) != None
      ensures done ==> Call(v, g, fuel, context, old(mem)) == Some(mem)
      decreases fuel, 0
    {
      var left: nat, ctx := fuel, context;
      while left > 0
        invariant supervisorCall && left <= fuel
        invariant Call(v, g, left, ctx, mem) == Call(v, g, fuel, context, old(mem))
      {
        if Decode(g, ctx, mem) == Plain {
          var (ctx', mem') := g.cpu(ctx, mem);
          ctx, mem := ctx', mem';
        } else {
          // #GP: ScMonitorV86 on the trap frame.
          var verdict;
          ctx, verdict := MonitorV86(v, g, left - 1, ctx);
          if verdict == LeaveCall {
            return true;
          } else if verdict == OutOfFuel {
            return false;
          }
        }
        left := left - 1;
      }
      done := false;
    }

    /** ScMonitorV86: what it makes of the trap frame, and whether the caller of
        ScEnterV86 is to be re-entered. */
    method MonitorV86(v: Version, g: Guest, fuel: nat, context: Context) returns (context': Context, verdict: Verdict)
      modifies this
      requires supervisorCall && Decode(g, context, mem) != Plain
      ensures supervisorCall
      ensures match Decode(g, context, old(mem))
              case Iret => verdict == LeaveCall && mem == old(mem)
              case Int(vector) =>
                var r := Call(v, g, fuel, Handler(context, old(mem), vector), old(mem));
                if r == None then verdict == OutOfFuel
                else verdict == GoOn && Some(mem) == r && context' == Resumed(v, context)
              case _ => verdict == GoOn && (context', mem) == Advance(g, context, old(mem))
      decreases fuel, 2
    {
      context', verdict := context, GoOn;
      match Decode(g, context, mem) {
        case Int(vector) =>
          var done := Virtual86Int(v, g, fuel, context, vector);
          if !done {
            return context, OutOfFuel;
          }
          if v == Repaired {
            context' := context.(eip := context.eip + 2);
          }
        case Iret => verdict := LeaveCall;
        case CliSti => context' := context.(eip := context.eip + 1);
        case Unknown =>
      }
    }

    /** ScVirtual86_Int, below the capture chain: a copy of the context enters real mode at
        the vector's address; the caller's own context is not touched. */
    method Virtual86Int(v: Version, g: Guest, fuel: nat, context: Context, vector: Byte) returns (done: bool)
      modifies this
      ensures supervisorCall
      ensures var r := Call(v, g, fuel, Handler(context, old(mem), vector), old(mem));
              (done <==> r != None) && (done ==> r == Some(mem))
      decreases fuel, 1
    {
      supervisorCall := true;
      var newContext := context.(cs := IvtWord(mem, vector * 4 + 2), eip := IvtWord(mem, vector * 4));
      done := EnterV86(v, g, fuel, newContext);
    }
  }

  datatype Verdict = GoOn | LeaveCall | OutOfFuel
}
