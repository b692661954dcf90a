/** The code around InMasterDispatch: sixteen stubs that share one continuation, which saves
    the registers, calls the dispatcher and restores them. */
module TrapStub {
  import opened Text

  datatype Registers = Registers(eax: int, ebx: int, ecx: int, edx: int, esi: int, edi: int, ebp: int)

  /** Where the processor goes on. */
  datatype Resume = Resume(eip: int, cs: int, eflags: int)

  /** What the dispatcher leaves in the registers that a C function may change. */
  datatype Clobber = Clobber(eax: int, ecx: int, edx: int)

  // The dwords of a context.
  const RD_EIP := 8
  const RD_CS := 9
  const RD_EFLAGS := 10

  function RdEbp(v: Version): nat {
    if v == AsWritten then 6 else 7
  }

  class Cpu {
    var regs: Registers
    var stack: seq<int>      // the word at ESP first
    var theIrq: int

    method SaveTrapRegs(esp: int)
      modifies this`stack
      ensures stack == [regs.eax, regs.ebx, regs.ecx, regs.edx, regs.esi, regs.edi, esp, regs.ebp] + old(stack)
    {
      stack := [regs.ebp] + stack;
      stack := [esp] + stack;
      stack := [regs.edi] + stack;
      stack := [regs.esi] + stack;
      stack := [regs.edx] + stack;
      stack := [regs.ecx] + stack;
      stack := [regs.ebx] + stack;
      stack := [regs.eax] + stack;
    }

    method Pop() returns (w: int)
      requires stack != []
      modifies this`stack
      ensures w == old(stack[0]) && stack == old(stack[1..])
    {
      w := stack[0];
      stack := stack[1..];
    }

    /** Undoes SaveTrapRegs, whatever has become of the registers in between; the slot of the
        pushed ESP is skipped. */
    method RestTrapRegs(ghost saved: Registers, ghost esp: int, ghost below: seq<int>)
      requires stack == [saved.eax, saved.ebx, saved.ecx, saved.edx, saved.esi, saved.edi, esp, saved.ebp] + below
      modifies this`regs, this`stack
      ensures regs == saved && stack == below
    {
      var eax := Pop();
      var ebx := Pop();
      var ecx := Pop();
      var edx := Pop();
      var esi := Pop();
      var edi := Pop();
      var _ := Pop();
      var ebp := Pop();
      regs := Registers(eax, ebx, ecx, edx, esi, edi, ebp);
    }

    /** MakeExcept up to the call of the handler: where its context argument points, in words
        above ESP. Repaired, RD_EIP, RD_CS and RD_EFLAGS find what the processor pushed and
        the other names their registers. As written each finds the next word up, the code
        segment for EIP among them; only RD_EBP is right, because EBP is saved one above. */
    method ExceptionContext(v: Version, esp: int) returns (at: nat)
      requires |stack| >= 4
      modifies this`stack
      ensures |stack| == |old(stack)| + 8 && at + RD_EFLAGS < |stack|
      ensures v == Repaired ==>
                && old(Resume(stack[0], stack[1], stack[2])) == Resume(stack[at + RD_EIP], stack[at + RD_CS], stack[at + RD_EFLAGS])
                && stack[at..at + 6] == [regs.eax, regs.ebx, regs.ecx, regs.edx, regs.esi, regs.edi]
      ensures v == AsWritten ==>
                && old(Resume(stack[1], stack[2], stack[3])) == Resume(stack[at + RD_EIP], stack[at + RD_CS], stack[at + RD_EFLAGS])
                && stack[at..at + 6] == [regs.ebx, regs.ecx, regs.edx, regs.esi, regs.edi, esp]
      ensures stack[at + RdEbp(v)] == regs.ebp
    {
      SaveTrapRegs(esp);
      at := if v == AsWritten then 1 else 0;
    }

    /** One interrupt through the stub of `irq`: the dispatcher gets that number, and the
        interrupted code goes on where it was with every register as it was. As written,
        four bytes are dropped after a call that pushed none, so each register gets the
        word above its own, and the processor goes on at CS as an address, with EFLAGS for CS. */
    method LowStub(v: Version, irq: nat, esp: int, c: Clobber) returns (passed: int, to: Resume)
      requires irq < 16 && |stack| >= 4
      modifies this
      ensures passed == irq
      ensures v == Repaired ==>
                regs == old(regs) && to == old(Resume(stack[0], stack[1], stack[2])) && stack == old(stack[3..])
      ensures v == AsWritten ==>
                && regs == old(Registers(regs.ebx, regs.ecx, regs.edx, regs.esi, regs.edi, esp, stack[0]))
                && to == old(Resume(stack[1], stack[2], stack[3])) && stack == old(stack[4..])
    {
      stack := [irq] + stack;
      theIrq := stack[0];
      stack := stack[1..];
      SaveTrapRegs(esp);
      passed := theIrq;
      // The call: EBX, ESI, EDI, EBP and the stack come back as they were.
      regs := regs.(eax := c.eax, ecx := c.ecx, edx := c.edx);
      ghost var saved, below := old(regs), old(stack);
      if v == AsWritten {
        var _ := Pop();
        ghost var shifted := Registers(saved.ebx, saved.ecx, saved.edx, saved.esi, saved.edi, esp, below[0]);
        assert below == [below[0]] + below[1..];
        RestTrapRegs(shifted, saved.ebp, below[1..]);
        assert stack == below[1..] && stack[3..] == below[4..];
      } else {
        RestTrapRegs(saved, esp, below);
      }
      to := Resume(stack[0], stack[1], stack[2]);
      stack := stack[3..];
    }
  }
}
