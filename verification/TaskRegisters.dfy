/** The saved registers of a task, src/task/task.h. */
module TaskRegisters {
  import opened Bits

  /** MAEROS_PROGRAM_VIRTUAL_ADDRESS. */
  const PROGRAM_ADDRESS: word := 0x40_0000
  /** MAEROS_PROGRAM_VIRTUAL_STACK_ADDRESS_START. */
  const STACK_ADDRESS: word := 0x3F_F000
  const USER_DATA_SEGMENT: word := 0x23
  const USER_CODE_SEGMENT: word := 0x1b
  /** The interrupt flag, set in whatever flags the kernel has when it returns to a task. */
  const INTERRUPT_FLAG: word := 0x200

  datatype Registers = Registers(edi: word, esi: word, ebp: word, ebx: word, edx: word, ecx: word, eax: word,
                                 ip: word, cs: word, flags: word, esp: word, ss: word)

  /** task_init: entry is e_entry of an ELF program, if the program is one. */
  function InitialRegisters(is_elf: bool, entry: word): Registers {
    Registers(0, 0, 0, 0, 0, 0, 0, if is_elf then entry else PROGRAM_ADDRESS, USER_CODE_SEGMENT, 0, STACK_ADDRESS, USER_DATA_SEGMENT)
  }

  /** Bit 9 of the flags register, section 3.4.3 of the Intel SDM Volume 1: maskable interrupts are delivered. */
  predicate InterruptsOn(flags: nat) {
    (flags / 0x200) % 2 == 1
  }

  /** The flags a task starts or resumes with, given the kernel's flags: interrupts are on, and nothing else differs. */
  function ResumeFlags(kernel_flags: word): (flags: word)
    ensures InterruptsOn(flags)
    ensures flags == if InterruptsOn(kernel_flags) then kernel_flags else kernel_flags + 0x200
  {
    OrWord(kernel_flags, INTERRUPT_FLAG);
    NinthBit(kernel_flags);
    Or(kernel_flags, INTERRUPT_FLAG)
  }

  lemma NinthBit(x: nat)
    ensures var y := Or(x, 0x200);
            y == (if InterruptsOn(x) then x else x + 0x200) && InterruptsOn(y)
  {
    assert Pow2(4) == 16;
    assert Pow2(9) == 0x200;
    hide Or, Pow2;
    OrBit(x, 9);
  }
}
