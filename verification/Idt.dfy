/** Gates of the interrupt descriptor table (IDT.h, IDT.c). */
module Idt {
  import opened CTypes

  datatype Gate = Gate(isrLo: u16, kernelCs: u16, reserved: byte, attributes: byte, isrHi: u16)

  /** The entry point that the processor finds in a gate. */
  function EntryPoint(g: Gate): u32 { g.isrHi * 0x1_0000 + g.isrLo }

  function GateFor(isr: u32, flags: byte): Gate {
    Gate(Low16(isr), 8, 0, flags, Low16(isr / 0x1_0000))
  }

  /** Splitting an address over the two halves of a gate loses nothing. */
  lemma {:induction false} GateKeepsAddress(isr: u32, flags: byte)
    ensures EntryPoint(GateFor(isr, flags)) == isr
  {
  }

  /** Of the 32-bit gate types only the interrupt gate clears IF on entry. */
  predicate ClearsIf(g: Gate) { g.attributes % 16 == 14 }

  /** A gate that an interrupt can be taken through: present, of a 32-bit interrupt or trap type, into the
      kernel's code segment. */
  predicate Usable(g: Gate) {
    g.attributes >= 0x80 && (g.attributes % 32 == 14 || g.attributes % 32 == 15) && g.kernelCs == 8
  }

  /** A present 32-bit interrupt gate of ring 0. */
  predicate IsInterruptGate(g: Gate) { g.attributes == 0x8E && g.kernelCs == 8 && g.reserved == 0 }

  lemma {:induction false} InterruptGateUsable(g: Gate)
    requires IsInterruptGate(g)
    ensures Usable(g) && ClearsIf(g)
  {
  }
}
