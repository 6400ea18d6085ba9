/** Two cascaded 8259A interrupt controllers, as their datasheet describes them, and the driver pic.c. */
module Pic {

  // ---------------------------------------------------------------- one chip

  /** Which initialization command word the data port expects next; Ready: none, so OCW1, the mask. */
  datatype Stage = Ready | AwaitIcw2 | AwaitIcw3 | AwaitIcw4

  /** Requests, lines in service, masked lines (bit i is line i, line 0 the most urgent), and the set-up. */
  datatype Chip = Chip(irr: bv8, isr: bv8, imr: bv8, base: bv8, icw3: bv8, icw4: bv8,
                       stage: Stage, single: bool, needIcw4: bool)

  /** The lowest set bit: the most urgent of a set of lines, 0 if there is none. */
  function Low(x: bv8): bv8 { x & (!x + 1) }

  /** What a non-specific EOI leaves in service. */
  function Cleared(isr: bv8): bv8 { isr & !Low(isr) }

  function LineOf(bit: bv8): bv8 {
    if bit & 0x0F != 0 then (if bit & 0x03 != 0 then (if bit & 1 != 0 then 0 else 1) else if bit & 4 != 0 then 2 else 3)
    else (if bit & 0x30 != 0 then (if bit & 0x10 != 0 then 4 else 5) else if bit & 0x40 != 0 then 6 else 7)
  }

  /** Command port (A0 = 0): ICW1 if bit 4 is set, else OCW3 if bit 3 is set, else OCW2. */
  function Command(c: Chip, v: bv8): Chip {
    if v & 0x10 != 0 then
      // ICW1 resets the edge sense circuit, clears the mask, and without IC4 clears the ICW4 functions
      c.(irr := 0, imr := 0, stage := AwaitIcw2, single := v & 2 != 0, needIcw4 := v & 1 != 0,
         icw4 := if v & 1 != 0 then c.icw4 else 0)
    else if v & 0x08 != 0 then c
    else if v & 0xE0 == 0x20 then c.(isr := Cleared(c.isr))             // non-specific EOI
    else if v & 0xE0 == 0x60 then c.(isr := c.isr & !((1 as bv8) << (v & 7))) // specific EOI
    else c
  }

  /** Data port (A0 = 1). */
  function Data(c: Chip, v: bv8): Chip {
    match c.stage
    case Ready => c.(imr := v)
    case AwaitIcw2 =>
      c.(base := v & 0xF8, stage := if !c.single then AwaitIcw3 else if c.needIcw4 then AwaitIcw4 else Ready)
    case AwaitIcw3 => c.(icw3 := v, stage := if c.needIcw4 then AwaitIcw4 else Ready)
    case AwaitIcw4 => c.(icw4 := v, stage := Ready)
  }

  /** The request that a chip in fully nested mode passes on: the most urgent unmasked one, if it is more
      urgent than everything in service. */
  function Top(irr: bv8, imr: bv8, isr: bv8): bv8 {
    var r := Low(irr & !imr);
    if r != 0 && (isr == 0 || r < Low(isr)) then r else 0
  }

  // ---------------------------------------------------------------- the pair

  datatype Pair = Pair(master: Chip, slave: Chip)

  const PIC1_CMD: bv16 := 0x20
  const PIC1_DAT: bv16 := 0x21
  const PIC2_CMD: bv16 := 0xA0
  const PIC2_DAT: bv16 := 0xA1
  const PIC_EOI: bv8 := 0x20

  function OutPort(p: Pair, port: bv16, v: bv8): Pair {
    if port == PIC1_CMD then p.(master := Command(p.master, v))
    else if port == PIC1_DAT then p.(master := Data(p.master, v))
    else if port == PIC2_CMD then p.(slave := Command(p.slave, v))
    else if port == PIC2_DAT then p.(slave := Data(p.slave, v))
    else p
  }

  /** Set up as the kernel does it: slave on line 2, 8086 mode, fully nested, EOI by command. */
  predicate SetUp(c: Chip, icw3: bv8) { c.stage == Ready && !c.single && c.icw3 == icw3 && c.icw4 == 1 }
  predicate Configured(p: Pair) { SetUp(p.master, 4) && SetUp(p.slave, 2) }

  function SlaveTop(p: Pair): bv8 { Top(p.slave.irr, p.slave.imr, p.slave.isr) }

  /** The slave's output is the master's request line 2. */
  function MasterTop(p: Pair): bv8 {
    Top(MasterLines(p, SlaveTop(p) != 0), p.master.imr, p.master.isr)
  }

  function MasterLines(p: Pair, slaveAsks: bool): bv8 {
    (p.master.irr & 0xFB) | (if slaveAsks then 4 else 0)
  }

  /** What an interrupt acknowledge cycle finds: a line of the master, a line of the slave, or nothing
      any more because the request went away, on the master or behind the master's line 2. */
  datatype Found = MasterLine | SlaveLine | SpuriousMaster | SpuriousSlave

  predicate CanFind(p: Pair, f: Found) {
    match f
    case MasterLine => MasterTop(p) != 0 && MasterTop(p) != 4
    case SlaveLine => MasterTop(p) == 4 && SlaveTop(p) != 0
    case SpuriousMaster => MasterTop(p) == 0
    case SpuriousSlave => SlaveTop(p) == 0 && Top(MasterLines(p, true), p.master.imr, p.master.isr) == 4
  }

  function Service(c: Chip, bit: bv8): Chip { c.(isr := c.isr | bit, irr := c.irr & !bit) }

  /** The state after the acknowledge cycle, and the vector that goes to the processor. */
  function Acknowledge(p: Pair, f: Found): (Pair, bv8) {
    match f
    case MasterLine => (p.(master := Service(p.master, MasterTop(p))), p.master.base | LineOf(MasterTop(p)))
    case SlaveLine =>
      (Pair(Service(p.master, 4), Service(p.slave, SlaveTop(p))), p.slave.base | LineOf(SlaveTop(p)))
    case SpuriousMaster => (p, p.master.base | 7)
    case SpuriousSlave => (p.(master := Service(p.master, 4)), p.slave.base | 7)
  }

  // ---------------------------------------------------------------- pic_eoi

  datatype Write = Write(port: bv16, v: bv8)

  function Apply(p: Pair, ws: seq<Write>): Pair
    decreases |ws|
  {
    if ws == [] then p else Apply(OutPort(p, ws[0].port, ws[0].v), ws[1..])
  }

  /** The port writes of `pic_eoi(irq)`. */
  function EoiWrites(irq: bv8): seq<Write> {
    (if irq >= 8 then [Write(PIC2_CMD, PIC_EOI)] else []) + [Write(PIC1_CMD, PIC_EOI)]
  }

  lemma {:induction false} EoiEffect(p: Pair, irq: bv8)
    ensures Apply(p, EoiWrites(irq)) ==
      Pair(p.master.(isr := Cleared(p.master.isr)), if irq >= 8 then p.slave.(isr := Cleared(p.slave.isr)) else p.slave)
  {
    hide Cleared, Data;
    var w1, w2 := Write(PIC1_CMD, PIC_EOI), Write(PIC2_CMD, PIC_EOI);
    EoiCommand(p.master);
    EoiCommand(p.slave);
    if irq >= 8 {
      assert EoiWrites(irq) == [w2, w1];
      ApplyTwo(p, w2, w1);
    } else {
      assert EoiWrites(irq) == [w1];
      ApplyOne(p, w1);
    }
  }

  /** For the vectors of the kernel these are a non-specific EOI to the slave and one to the master. */
  lemma {:induction false} EoiOfVector(irq: bv8)
    requires irq >= 8
    ensures EoiWrites(irq) == [Write(0xA0, 0x20), Write(0x20, 0x20)]
  {
  }

  lemma {:induction false} EoiCommand(c: Chip)
    ensures Command(c, PIC_EOI) == c.(isr := Cleared(c.isr))
  {
  }

  lemma {:induction false} ApplyOne(p: Pair, w: Write)
    ensures Apply(p, [w]) == OutPort(p, w.port, w.v)
  {
  }

  lemma {:induction false} ApplyTwo(p: Pair, w: Write, w': Write)
    ensures Apply(p, [w, w']) == OutPort(OutPort(p, w.port, w.v), w'.port, w'.v)
  {
    assert [w, w'][1..] == [w'];
    ApplyOne(OutPort(p, w.port, w.v), w');
  }

  /** The lines in service on both chips. */
  function InService(p: Pair): (bv8, bv8) { (p.master.isr, p.slave.isr) }

  /** `irq_handler` passes the vector, not the line, so that both chips always get an EOI. That retires
      exactly the service just acknowledged if and only if no line of the slave was in service before
      (always so for a line of the slave itself), and for a spurious IRQ7 none of the master either. */
  lemma {:induction false} EoiRetiresIff(p: Pair, f: Found)
    requires CanFind(p, f) && p.master.base >= 8 && p.slave.base >= 8
    ensures Retired(p, f) == InService(p) <==>
        match f
        case SlaveLine => true
        case MasterLine => p.slave.isr == 0
        case SpuriousSlave => p.slave.isr == 0
        case SpuriousMaster => p.slave.isr == 0 && p.master.isr == 0
  {
    match f {
      case MasterLine => RetireMasterLine(p);
      case SlaveLine => RetireSlaveLine(p);
      case SpuriousMaster => RetireSpuriousMaster(p);
      case SpuriousSlave => RetireSpuriousSlave(p);
    }
  }

  /** What is in service after acknowledging and then retiring. */
  function Retired(p: Pair, f: Found): (bv8, bv8) {
    var (q, vector) := Acknowledge(p, f);
    InService(Apply(q, EoiWrites(vector)))
  }

  lemma {:induction false} RetiredIs(p: Pair, f: Found)
    requires p.master.base >= 8 && p.slave.base >= 8
    ensures var q := Acknowledge(p, f).0;
      Retired(p, f) == (Cleared(q.master.isr), Cleared(q.slave.isr))
  {
    hide Apply, EoiWrites, Cleared, Acknowledge;
    var (q, vector) := Acknowledge(p, f);
    AcknowledgedVector(p, f);
    EoiEffect(q, vector);
  }

  lemma {:induction false} AcknowledgedVector(p: Pair, f: Found)
    requires p.master.base >= 8 && p.slave.base >= 8
    ensures Acknowledge(p, f).1 >= 8
  {
    hide LineOf, Top;
    match f {
      case MasterLine => VectorRange(p.master.base, LineOf(MasterTop(p)));
      case SlaveLine => VectorRange(p.slave.base, LineOf(SlaveTop(p)));
      case SpuriousMaster => VectorRange(p.master.base, 7);
      case SpuriousSlave => VectorRange(p.slave.base, 7);
    }
  }

  lemma {:induction false} RetireMasterLine(p: Pair)
    requires CanFind(p, MasterLine) && p.master.base >= 8 && p.slave.base >= 8
    ensures Retired(p, MasterLine) == InService(p) <==> p.slave.isr == 0
  {
    hide Top, Low, LineOf, Retired, MasterLines, Cleared;
    RetiredIs(p, MasterLine);
    TopIsNew(MasterLines(p, SlaveTop(p) != 0), p.master.imr, p.master.isr);
    LowClears(p.slave.isr);
  }

  lemma {:induction false} RetireSlaveLine(p: Pair)
    requires CanFind(p, SlaveLine) && p.master.base >= 8 && p.slave.base >= 8
    ensures Retired(p, SlaveLine) == InService(p)
  {
    hide Top, Low, LineOf, Retired, MasterLines, Cleared;
    RetiredIs(p, SlaveLine);
    TopIsNew(MasterLines(p, SlaveTop(p) != 0), p.master.imr, p.master.isr);
    TopIsNew(p.slave.irr, p.slave.imr, p.slave.isr);
  }

  lemma {:induction false} RetireSpuriousMaster(p: Pair)
    requires p.master.base >= 8 && p.slave.base >= 8
    ensures Retired(p, SpuriousMaster) == InService(p) <==> p.slave.isr == 0 && p.master.isr == 0
  {
    hide Top, Low, Retired, Cleared, LineOf;
    RetiredIs(p, SpuriousMaster);
    LowClears(p.slave.isr);
    LowClears(p.master.isr);
  }

  lemma {:induction false} RetireSpuriousSlave(p: Pair)
    requires CanFind(p, SpuriousSlave) && p.master.base >= 8 && p.slave.base >= 8
    ensures Retired(p, SpuriousSlave) == InService(p) <==> p.slave.isr == 0
  {
    hide Top, Low, Retired, MasterLines, Cleared, LineOf;
    RetiredIs(p, SpuriousSlave);
    TopIsNew(MasterLines(p, true), p.master.imr, p.master.isr);
    LowClears(p.slave.isr);
  }

  lemma {:induction false} VectorRange(base: bv8, line: bv8)
    requires base >= 8
    ensures base | line >= 8
  {
  }

  lemma {:induction false} TopIsNew(irr: bv8, imr: bv8, isr: bv8)
    ensures var t := Top(irr, imr, isr);
      t != 0 ==> Cleared(isr | t) == isr
  {
  }

  lemma {:induction false} LowClears(x: bv8)
    ensures Cleared(x) == x <==> x == 0
  {
  }

  /** Were a handler to enable interrupts, IRQ0 could nest inside a service of slave line 1 and its EOI
      would retire the slave's line early. */
  lemma {:induction false} NestedServiceIsLost(c: Chip)
    requires c.imr == 0 && c.irr == 0 && c.base == 0x20
    ensures var p := Pair(c.(isr := 4, irr := 1), c.(isr := 2, base := 0x28));
      && CanFind(p, MasterLine)
      && var (q, vector) := Acknowledge(p, MasterLine);
         vector == 32 && InService(Apply(q, EoiWrites(vector))) == (4, 0) != InService(p)
  {
    var p := Pair(c.(isr := 4, irr := 1), c.(isr := 2, base := 0x28));
    var (q, vector) := Acknowledge(p, MasterLine);
    EoiEffect(q, vector);
  }

  // ---------------------------------------------------------------- masks and remapping

  type Line = l: bv8 | l < 16

  /** Line `l` (8 to 15 on the slave) is masked. */
  predicate IsMasked(p: Pair, l: Line) {
    if l < 8 then Bit(p.master.imr, l) else Bit(p.slave.imr, l - 8)
  }

  predicate Bit(v: bv8, l: bv8)
    requires l < 8
  {
    (v >> l) & 1 == 1
  }

  /** The masked lines, as a set. */
  ghost function MaskSet(p: Pair): iset<Line> { iset l: Line | IsMasked(p, l) }

  /** A chip after ICW1 to ICW4 and the restored mask: a new vector base, the pending edges gone. */
  function Reinitialised(c: Chip, offset: bv8, icw3: bv8): Chip {
    c.(irr := 0, base := offset & 0xF8, icw3 := icw3, icw4 := 1, stage := Ready, single := false, needIcw4 := true)
  }

  function Remapped(p: Pair, offset1: bv8, offset2: bv8): Pair {
    Pair(Reinitialised(p.master, offset1, 4), Reinitialised(p.slave, offset2, 2))
  }

  /** Nothing but bases and pending edges changes on a configured pair; a base is the offset given exactly
      when that is a multiple of 8. */
  lemma {:induction false} RemapChangesBases(p: Pair, offset1: bv8, offset2: bv8)
    requires Configured(p) && p.master.needIcw4 && p.slave.needIcw4
    ensures var r := Remapped(p, offset1, offset2);
      && r == Pair(p.master.(irr := 0, base := r.master.base), p.slave.(irr := 0, base := r.slave.base))
      && (r.master.base == offset1 <==> offset1 % 8 == 0)
      && (r.slave.base == offset2 <==> offset2 % 8 == 0)
      && MaskSet(r) == MaskSet(p)
  {
    MultipleOfEight(offset1);
    MultipleOfEight(offset2);
  }

  lemma {:induction false} MultipleOfEight(x: bv8)
    ensures x & 0xF8 == x <==> x % 8 == 0
  {
  }

  /** ICW1 clears the mask, so without the restore at the end every line would be unmasked. */
  lemma {:induction false} RemapNeedsRestore(c: Chip, offset: bv8, icw3: bv8)
    ensures Data(Data(Data(Command(c, 0x11), offset), icw3), 1) == Reinitialised(c, offset, icw3).(imr := 0)
  {
  }

  /** The port interface, as the driver sees it. */
  class Controllers {
    var pics: Pair

    constructor (p: Pair)
      ensures pics == p
    {
      pics := p;
    }

    method OutB(port: bv16, v: bv8)
      modifies this
      ensures pics == OutPort(old(pics), port, v)
    {
      pics := OutPort(pics, port, v);
    }

    /** Reading a data port gives the mask register. */
    method InB(port: bv16) returns (v: bv8)
      requires port == PIC1_DAT || port == PIC2_DAT
      ensures v == if port == PIC1_DAT then pics.master.imr else pics.slave.imr
    {
      v := if port == PIC1_DAT then pics.master.imr else pics.slave.imr;
    }

    method PicEoi(irq: bv8)
      modifies this
      ensures pics == Apply(old(pics), EoiWrites(irq))
    {
      hide Command, Data;
      ghost var p := pics;
      if irq >= 8 {
        OutB(PIC2_CMD, PIC_EOI);
        ApplyTwo(p, Write(PIC2_CMD, PIC_EOI), Write(PIC1_CMD, PIC_EOI));
        assert EoiWrites(irq) == [Write(PIC2_CMD, PIC_EOI), Write(PIC1_CMD, PIC_EOI)];
      } else {
        ApplyOne(p, Write(PIC1_CMD, PIC_EOI));
        assert EoiWrites(irq) == [Write(PIC1_CMD, PIC_EOI)];
      }
      OutB(PIC1_CMD, PIC_EOI);
    }

    method PicRemap(offset1: bv8, offset2: bv8)
      modifies this
      ensures pics == Remapped(old(pics), offset1, offset2)
      ensures pics.master.icw3 == 4 && pics.slave.icw3 == 2 && pics.master.icw4 == pics.slave.icw4 == 1
      ensures pics.master.imr == old(pics.master.imr) && pics.slave.imr == old(pics.slave.imr)
    {
      var a1 := InB(PIC1_DAT);
      var a2 := InB(PIC2_DAT);
      OutB(PIC1_CMD, 0x11);
      OutB(PIC2_CMD, 0x11);
      OutB(PIC1_DAT, offset1);
      OutB(PIC2_DAT, offset2);
      OutB(PIC1_DAT, 4);
      OutB(PIC2_DAT, 2);
      OutB(PIC1_DAT, 1);
      OutB(PIC2_DAT, 1);
      OutB(PIC1_DAT, a1);
      OutB(PIC2_DAT, a2);
    }

    /** The controller part of `isr_install`: vectors 32 to 47, every line unmasked. */
    method InstallControllers()
      modifies this
      ensures pics == Installed(old(pics))
      ensures pics.master.icw3 == 4 && pics.slave.icw3 == 2 && pics.master.icw4 == pics.slave.icw4 == 1
      ensures pics.master.imr == pics.slave.imr == 0 && pics.master.base == 0x20 && pics.slave.base == 0x28
    {
      OutB(PIC1_CMD, 0x11);
      OutB(PIC2_CMD, 0x11);
      OutB(PIC1_DAT, 0x20);
      OutB(PIC2_DAT, 0x28);
      OutB(PIC1_DAT, 4);
      OutB(PIC2_DAT, 2);
      OutB(PIC1_DAT, 1);
      OutB(PIC2_DAT, 1);
      OutB(PIC1_DAT, 0);
      OutB(PIC2_DAT, 0);
    }

    /** `irq_set_mask`. There are 16 lines; a larger number shifts the bit out of the mask byte. From 40 on
        the shift is undefined in C. */
    method IrqSetMask(irqline: bv8)
      requires Configured(pics) && irqline < 40
      modifies this
      ensures pics == if irqline < 16 then Masked(old(pics), irqline) else old(pics)
    {
      hide SetBit, ClearBit, ShiftedOne, Command;
      var port, line := PIC1_DAT, irqline;
      if irqline >= 8 {
        port, line := PIC2_DAT, irqline - 8;
      }
      var value := InB(port);
      ShiftedBit(line, value);
      OutB(port, value | ShiftedOne(line));
    }

    method IrqClearMask(irqline: bv8)
      requires Configured(pics) && irqline < 40
      modifies this
      ensures pics == if irqline < 16 then Unmasked(old(pics), irqline) else old(pics)
    {
      hide SetBit, ClearBit, ShiftedOne, Command;
      var port, line := PIC1_DAT, irqline;
      if irqline >= 8 {
        port, line := PIC2_DAT, irqline - 8;
      }
      var value := InB(port);
      ShiftedBit(line, value);
      OutB(port, value & !ShiftedOne(line));
    }
  }

  /** The low byte of `1 << line`, a 32-bit shift. */
  function ShiftedOne(line: bv8): bv8
    requires line < 32
  {
    (((1 as bv32) << line) & 0xFF) as bv8
  }

  lemma {:induction false} ShiftedBit(line: bv8, v: bv8)
    requires line < 32
    ensures line < 8 ==> v | ShiftedOne(line) == SetBit(v, line) && v & !ShiftedOne(line) == ClearBit(v, line)
    ensures line >= 8 ==> v | ShiftedOne(line) == v && v & !ShiftedOne(line) == v
  {
  }

  function Installed(p: Pair): Pair {
    var r := Remapped(p, 0x20, 0x28);
    Pair(r.master.(imr := 0), r.slave.(imr := 0))
  }

  /** After `isr_install` no line is masked. */
  lemma {:induction false} InstalledUnmasked(p: Pair)
    ensures MaskSet(Installed(p)) == iset{}
    ensures Installed(p).master.imr == Installed(p).slave.imr == 0
  {
    hide IsMasked, Reinitialised;
    forall l: Line ensures !IsMasked(Installed(p), l) { UnmaskedByte(Installed(p), l); }
  }

  lemma {:induction false} UnmaskedByte(p: Pair, l: Line)
    requires p.master.imr == p.slave.imr == 0
    ensures !IsMasked(p, l)
  {
  }

  /** With no line masked and nothing in service, a request on any line makes the master ask. */
  lemma {:induction false} EveryLineAsks(p: Pair)
    requires MaskSet(p) == iset{} && InService(p) == (0, 0)
    ensures p.master.irr & 0xFB != 0 || p.slave.irr != 0 ==> MasterTop(p) != 0
  {
    hide Low;
    NothingMasked(p);
    LowFound(p.slave.irr);
    LowFound(MasterLines(p, false));
    LowFound(MasterLines(p, true));
    LinesAsked(p.master.irr);
  }

  lemma {:induction false} LinesAsked(irr: bv8)
    ensures (irr & 0xFB) | 4 != 0 && ((irr & 0xFB) | 0 == irr & 0xFB)
  {
  }

  lemma {:induction false} LowFound(x: bv8)
    ensures Low(x) == 0 <==> x == 0
  {
  }

  lemma {:induction false} NothingMasked(p: Pair)
    requires MaskSet(p) == iset{}
    ensures p.master.imr == 0 && p.slave.imr == 0
  {
    hide Bit;
    forall l: Line ensures !IsMasked(p, l) { assert l !in MaskSet(p); }
    forall k: bv8 | k < 8 ensures !Bit(p.master.imr, k) { assert !IsMasked(p, k); }
    forall k: bv8 | k < 8
      ensures !Bit(p.slave.imr, k)
    {
      SlaveLineBack(k);
      assert !IsMasked(p, k + 8);
    }
    NoBits(p.master.imr);
    NoBits(p.slave.imr);
  }

  lemma {:induction false} SlaveLineBack(k: bv8)
    requires k < 8
    ensures 8 <= k + 8 < 16 && k + 8 - 8 == k
  {
  }

  lemma {:induction false} NoBits(v: bv8)
    requires forall k: bv8 | k < 8 :: !Bit(v, k)
    ensures v == 0
  {
    assert !Bit(v, 0) && !Bit(v, 1) && !Bit(v, 2) && !Bit(v, 3) && !Bit(v, 4) && !Bit(v, 5) && !Bit(v, 6) && !Bit(v, 7);
  }

  /** Fully nested mode: a chip passes on line `k` exactly if it is requested and unmasked, no lower line is,
      and nothing from `k` down is in service. */
  lemma {:induction false} MostUrgent(irr: bv8, imr: bv8, isr: bv8, k: bv8)
    requires k < 8
    ensures var bit := (1 as bv8) << k;
      Top(irr, imr, isr) == bit <==>
        irr & bit != 0 && imr & bit == 0 && irr & !imr & (bit - 1) == 0 && isr & (bit | (bit - 1)) == 0
  {
    hide Low;
    var bit := (1 as bv8) << k;
    LowIs(irr & !imr, k);
    LowAbove(isr, k);
    UnmaskedBit(irr, imr, k);
  }

  lemma {:induction false} LowIs(x: bv8, k: bv8)
    requires k < 8
    ensures var bit := (1 as bv8) << k;
      bit != 0 && (Low(x) == bit <==> x & bit != 0 && x & (bit - 1) == 0)
  {
  }

  lemma {:induction false} LowAbove(isr: bv8, k: bv8)
    requires k < 8
    ensures var bit := (1 as bv8) << k;
      isr == 0 || bit < Low(isr) <==> isr & (bit | (bit - 1)) == 0
  {
  }

  lemma {:induction false} UnmaskedBit(irr: bv8, imr: bv8, k: bv8)
    requires k < 8
    ensures var bit := (1 as bv8) << k;
      irr & !imr & bit != 0 <==> irr & bit != 0 && imr & bit == 0
  {
  }

  /** Each line has its own vector: the base and its number. */
  lemma {:induction false} VectorOfLine(p: Pair, k: bv8)
    requires k < 8 && p.master.base == 0x20 && p.slave.base == 0x28
    ensures MasterTop(p) == (1 as bv8) << k ==> Acknowledge(p, MasterLine).1 == 32 + k
    ensures SlaveTop(p) == (1 as bv8) << k ==> Acknowledge(p, SlaveLine).1 == 40 + k
    ensures Acknowledge(p, SpuriousMaster).1 == 39 && Acknowledge(p, SpuriousSlave).1 == 47
  {
    hide MasterTop, SlaveTop, LineOf;
    LineOfBit(k);
  }

  lemma {:induction false} LineOfBit(k: bv8)
    requires k < 8
    ensures LineOf((1 as bv8) << k) == k && 0x20 | k == 32 + k && 0x28 | k == 40 + k
  {
  }

  function SetBit(v: bv8, k: bv8): bv8
    requires k < 8
  {
    v | ((1 as bv8) << k)
  }

  function ClearBit(v: bv8, k: bv8): bv8
    requires k < 8
  {
    v & !((1 as bv8) << k)
  }

  function Masked(p: Pair, l: Line): Pair {
    if l < 8 then p.(master := p.master.(imr := SetBit(p.master.imr, l)))
    else p.(slave := p.slave.(imr := SetBit(p.slave.imr, l - 8)))
  }

  function Unmasked(p: Pair, l: Line): Pair {
    if l < 8 then p.(master := p.master.(imr := ClearBit(p.master.imr, l)))
    else p.(slave := p.slave.(imr := ClearBit(p.slave.imr, l - 8)))
  }

  lemma {:induction false} BitSet(v: bv8, k: bv8, l: bv8)
    requires k < 8 && l < 8
    ensures Bit(SetBit(v, k), l) <==> l == k || Bit(v, l)
    ensures Bit(ClearBit(v, k), l) <==> l != k && Bit(v, l)
  {
  }

  lemma {:induction false} MaskedSet(p: Pair, k: Line)
    ensures MaskSet(Masked(p, k)) == MaskSet(p) + iset{k}
    ensures MaskSet(Unmasked(p, k)) == MaskSet(p) - iset{k}
    ensures OnlyMasks(p, Masked(p, k)) && OnlyMasks(p, Unmasked(p, k))
  {
    hide IsMasked, Masked, Unmasked;
    OnlyMask(p, k);
    forall l: Line
      ensures IsMasked(Masked(p, k), l) <==> l == k || IsMasked(p, l)
      ensures IsMasked(Unmasked(p, k), l) <==> l != k && IsMasked(p, l)
    {
      MaskedLine(p, k, l);
    }
  }

  /** Nothing but the mask registers differs. */
  predicate OnlyMasks(p: Pair, q: Pair) {
    q == Pair(p.master.(imr := q.master.imr), p.slave.(imr := q.slave.imr))
  }

  lemma {:induction false} OnlyMask(p: Pair, k: Line)
    ensures OnlyMasks(p, Masked(p, k)) && OnlyMasks(p, Unmasked(p, k))
  {
  }

  lemma {:induction false} MaskedLine(p: Pair, k: Line, l: Line)
    ensures IsMasked(Masked(p, k), l) <==> l == k || IsMasked(p, l)
    ensures IsMasked(Unmasked(p, k), l) <==> l != k && IsMasked(p, l)
  {
    hide Bit, SetBit, ClearBit;
    if k < 8 {
      if l < 8 { BitSet(p.master.imr, k, l); }
    } else {
      if l >= 8 {
        BitSet(p.slave.imr, k - 8, l - 8);
        Back(k, l);
      }
    }
  }

  lemma {:induction false} Back(k: Line, l: Line)
    requires k >= 8 && l >= 8
    ensures k - 8 == l - 8 <==> k == l
  {
  }

  datatype Op = Mask(line: Line) | Unmask(line: Line) | Remap(offset1: bv8, offset2: bv8)

  function RunOp(p: Pair, op: Op): Pair {
    match op
    case Mask(l) => Masked(p, l)
    case Unmask(l) => Unmasked(p, l)
    case Remap(o1, o2) => Remapped(p, o1, o2)
  }

  function RunOps(p: Pair, ops: seq<Op>): Pair
    decreases |ops|
  {
    if ops == [] then p else RunOps(RunOp(p, ops[0]), ops[1..])
  }

  ghost function RunSet(s: iset<Line>, ops: seq<Op>): iset<Line>
    decreases |ops|
  {
    if ops == [] then s
    else
      var next := match ops[0]
        case Mask(l) => s + iset{l}
        case Unmask(l) => s - iset{l}
        case Remap(_, _) => s;
      RunSet(next, ops[1..])
  }

  /** The two mask registers are one 16-line set: every run of driver calls changes it by inserting and
      removing the named lines, remapping leaves it alone, and the pair stays configured. */
  lemma {:induction false} DriverRefinesSet(p: Pair, ops: seq<Op>)
    requires Configured(p)
    ensures MaskSet(RunOps(p, ops)) == RunSet(MaskSet(p), ops) && Configured(RunOps(p, ops))
    decreases |ops|
  {
    hide IsMasked;
    if ops != [] {
      match ops[0] {
        case Mask(l) => MaskedSet(p, l);
        case Unmask(l) => MaskedSet(p, l);
        case Remap(o1, o2) => SameMasks(p, Remapped(p, o1, o2));
      }
      DriverRefinesSet(RunOp(p, ops[0]), ops[1..]);
    }
  }

  lemma {:induction false} SameMasks(p: Pair, q: Pair)
    requires p.master.imr == q.master.imr && p.slave.imr == q.slave.imr
    ensures MaskSet(p) == MaskSet(q)
  {
    hide Bit;
    forall l: Line ensures IsMasked(p, l) == IsMasked(q, l) {}
  }
}
