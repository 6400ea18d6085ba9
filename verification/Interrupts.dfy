/** The interrupt path as a step machine: the interrupted program, the two controllers, the gate table, the
    stubs, the dispatcher `irq_handler` (ISR.c) and the tick counter (timer.c), interleaved step by step. */
module Interrupts {
  import opened CTypes
  import opened Idt
  import opened Stub
  import opened Pic

  /** What `interrupt_handlers[v]` can hold: nothing, `timer_callback`, or some other C function that leaves
      the saved frame, the tick counter, the in-service registers and IF alone. */
  datatype Handler = NoHandler | TimerCallback | Other

  const IRQ0: nat := 32

  /** Where the processor is: in the program, in the stub of some vector, or somewhere this kernel has no
      code for. `saved` is the interrupted state, kept for the statements below. */
  datatype Mode =
    | Program
    | Entry(saved: Cpu, gate: Gate, stub: byte, k: nat)               // k prologue instructions done
    | Body(saved: Cpu, gate: Gate, stub: byte)                        // irq_handler called
    | Eoi(saved: Cpu, gate: Gate, stub: byte, left: seq<Write>)       // callback done, port writes left
    | Exit(saved: Cpu, gate: Gate, stub: byte, h: Effect, k: nat)     // k epilogue instructions done
    | Lost

  /** The machine. `stubs` are the addresses of the stubs isr0 to isr31 and irq0 to irq15, in this order. */
  datatype Sys = Sys(cpu: Cpu, pics: Pair, idt: seq<Gate>, stubs: seq<u32>, handlers: seq<Handler>,
                     ticks: u32, mode: Mode)

  /** The stub whose code stands at an address. */
  ghost function StubAt(stubs: seq<u32>, a: u32): (r: Option<nat>)
    ensures r.Some? <==> a in stubs
    ensures r.Some? ==> r.value < |stubs| && stubs[r.value] == a
  {
    if a in stubs then
      var n :| 0 <= n < |stubs| && stubs[n] == a;
      Some(n)
    else None
  }

  function ByteOf(x: u32): bv8 { (x % 256) as bv8 }

  /** The argument that the dispatcher finds in `state->int_no`. */
  function IntNo(c: Cpu): u32 { FrameAt(c, Last(c)).intNo }

  /** Devices and the drivers' masks may change at any time; what is in service and the set-up may not. */
  predicate SameService(p: Pair, q: Pair) {
    && q == Pair(p.master.(irr := q.master.irr, imr := q.master.imr), p.slave.(irr := q.slave.irr, imr := q.slave.imr))
  }

  /** One step of the interrupted program: it sees its registers and stack, and the tick counter. */
  type Prog = (Cpu, u32) -> Cpu

  datatype Event = Device | ProgramStep | Accept(f: Found) | StubEntry | Call | Callback | PortWrite | ReturnC(h: Effect) | StubExit

  /** Taking the interrupt `f`: the controllers name a vector, the processor goes through its gate, and what
      runs is the code at the gate's entry point. Without an interrupt stub there, or inside a service, the
      machine is lost. */
  ghost function Accepted(s: Sys, f: Found): Sys {
    var (q, v) := Acknowledge(s.pics, f);
    if !s.mode.Program? || v as int >= |s.idt| || !Usable(s.idt[v as int]) then s.(pics := q, mode := Lost)
    else
      var g := s.idt[v as int];
      match StubAt(s.stubs, EntryPoint(g))
      case Some(n) =>
        if 32 <= n < 48 then s.(pics := q, cpu := Deliver(s.cpu, g, None), mode := Entry(s.cpu, g, n, 0))
        else s.(pics := q, mode := Lost)
      case None => s.(pics := q, mode := Lost)
  }

  ghost predicate Next(prog: Prog, e: Event, s: Sys, t: Sys) {
    match e
    case Device =>
      SameService(s.pics, t.pics) && t == s.(pics := t.pics)
    case ProgramStep =>
      s.mode.Program? && SameService(s.pics, t.pics) && t == s.(cpu := prog(s.cpu, s.ticks), pics := t.pics)
    case Accept(f) =>
      Enabled(s.cpu.eflags) && CanFind(s.pics, f) && t == Accepted(s, f)
    case StubEntry =>
      && s.mode.Entry? && s.mode.k < 13
      && t == s.(cpu := Exec(IrqPrologue(s.mode.stub)[s.mode.k], s.cpu),
                 mode := Entry(s.mode.saved, s.mode.gate, s.mode.stub, s.mode.k + 1))
    case Call =>
      s.mode.Entry? && s.mode.k == 13 && t == s.(mode := Body(s.mode.saved, s.mode.gate, s.mode.stub))
    case Callback =>
      && s.mode.Body?
      && var v := IntNo(s.cpu);
         if v < |s.handlers| then
           && SameService(s.pics, t.pics) && (s.handlers[v] != Other ==> t.pics == s.pics)
           && t == s.(pics := t.pics,
                      ticks := if s.handlers[v] == TimerCallback then Wrap(s.ticks + 1) else s.ticks,
                      mode := Eoi(s.mode.saved, s.mode.gate, s.mode.stub, EoiWrites(ByteOf(v))))
         else t == s.(mode := Lost)
    case PortWrite =>
      && s.mode.Eoi? && s.mode.left != []
      && t == s.(pics := OutPort(s.pics, s.mode.left[0].port, s.mode.left[0].v),
                 mode := Eoi(s.mode.saved, s.mode.gate, s.mode.stub, s.mode.left[1..]))
    case ReturnC(h) =>
      && s.mode.Eoi? && s.mode.left == []
      && h.frame == FrameAt(s.cpu, Last(s.cpu)) && !Enabled(h.eflags)
      && t == s.(cpu := Returned(s.cpu, h), mode := Exit(s.mode.saved, s.mode.gate, s.mode.stub, h, 0))
    case StubExit =>
      && s.mode.Exit? && s.mode.k < 9
      && t == s.(cpu := Exec(IrqEpilogue()[s.mode.k], s.cpu),
                 mode := if s.mode.k == 8 then Program
                         else Exit(s.mode.saved, s.mode.gate, s.mode.stub, s.mode.h, s.mode.k + 1))
  }

  // ---------------------------------------------------------------- the invariant

  /** Equal data segments, and room on the stack for a saved frame: what the stubs need of a program. */
  predicate Fit(c: Cpu) { c.es == c.ds && c.fs == c.ds && c.gs == c.ds && 4 * (|c.stack| + 15) <= c.top }

  /** The state of the program: its own while it runs, the saved one while it is interrupted. */
  function Visible(s: Sys): Cpu { if s.mode.Program? || s.mode.Lost? then s.cpu else s.mode.saved }

  /** At most one line in service on each chip, so that one EOI empties it. */
  predicate OneEach(p: Pair) { Cleared(p.master.isr) == 0 && Cleared(p.slave.isr) == 0 }

  /** What may still be in service with the port writes `left` to come. */
  predicate EoiOk(p: Pair, left: seq<Write>) {
    if |left| == 2 then left == [Write(PIC2_CMD, PIC_EOI), Write(PIC1_CMD, PIC_EOI)] && OneEach(p)
    else if |left| == 1 then left == [Write(PIC1_CMD, PIC_EOI)] && p.slave.isr == 0 && Cleared(p.master.isr) == 0
    else left == [] && InService(p) == (0, 0)
  }

  predicate InStub(stub: byte, gate: Gate) { 32 <= stub < 48 && ClearsIf(gate) }

  predicate ModeOk(s: Sys) {
    match s.mode
    case Program => InService(s.pics) == (0, 0)
    case Entry(saved, g, n, k) =>
      && InStub(n, g) && k <= 13 && OneEach(s.pics) && !Enabled(s.cpu.eflags)
      && s.cpu == Run(IrqPrologue(n), Deliver(saved, g, None), k)
    case Body(saved, g, n) =>
      InStub(n, g) && OneEach(s.pics) && !Enabled(s.cpu.eflags) && s.cpu == AtCall(saved, n, g)
    case Eoi(saved, g, n, left) =>
      InStub(n, g) && EoiOk(s.pics, left) && !Enabled(s.cpu.eflags) && s.cpu == AtCall(saved, n, g)
    case Exit(saved, g, n, h, k) =>
      && InStub(n, g) && k < 9 && InService(s.pics) == (0, 0)
      && h.frame == Saved(saved, n) && !Enabled(s.cpu.eflags)
      && s.cpu == Run(IrqEpilogue(), AfterCall(saved, n, g, h), k)
    case Lost => false
  }

  /** The stubs are in different places, and every vector from 32 to 47 has an interrupt gate to its own. */
  ghost predicate Wired(idt: seq<Gate>, stubs: seq<u32>) {
    && |idt| == 256 && |stubs| == 48
    && (forall i, j :: 0 <= i < j < 48 ==> stubs[i] != stubs[j])
    && forall v :: 32 <= v < 48 ==> IsInterruptGate(idt[v]) && EntryPoint(idt[v]) == stubs[v]
  }

  ghost predicate TimerOnIrq0(handlers: seq<Handler>) {
    |handlers| == 256 && forall v :: 0 <= v < 256 ==> (handlers[v] == TimerCallback <==> v == IRQ0)
  }

  /** Controllers and gates as `isr_install` leaves them, the timer registered for IRQ0 only, a fit program. */
  ghost predicate Inv(s: Sys) {
    && s.pics.master.base == 0x20 && s.pics.slave.base == 0x28
    && Wired(s.idt, s.stubs) && TimerOnIrq0(s.handlers)
    && Fit(Visible(s)) && ModeOk(s)
  }

  // ---------------------------------------------------------------- every step keeps it

  lemma {:induction false} SameServiceKeeps(p: Pair, q: Pair)
    requires SameService(p, q)
    ensures InService(q) == InService(p) && (OneEach(q) <==> OneEach(p))
    ensures q.master.base == p.master.base && q.slave.base == p.slave.base
    ensures forall left :: EoiOk(p, left) ==> EoiOk(q, left)
  {
    hide Cleared;
  }

  lemma {:induction false} DeviceKeeps(prog: Prog, s: Sys, t: Sys)
    requires Inv(s) && Next(prog, Device, s, t)
    ensures Inv(t) && Visible(t) == Visible(s)
  {
    hide Cleared, EoiOk, OneEach, SameService, Run, AtCall, AfterCall, Saved, Enabled, Fit, IrqPrologue, IrqEpilogue, Wired, TimerOnIrq0;
    SameServiceKeeps(s.pics, t.pics);
  }

  /** The program may use any instructions that keep it fit. */
  ghost predicate StaysFit(prog: Prog) {
    forall c, ticks :: Fit(c) ==> Fit(prog(c, ticks))
  }

  lemma {:induction false} ProgramKeeps(prog: Prog, s: Sys, t: Sys)
    requires StaysFit(prog) && Inv(s) && Next(prog, ProgramStep, s, t)
    ensures Inv(t) && Visible(t) == prog(Visible(s), s.ticks)
  {
    hide Cleared, EoiOk, OneEach, SameService, Run, Fit, Wired, TimerOnIrq0;
    SameServiceKeeps(s.pics, t.pics);
  }

  lemma {:induction false} NothingInService()
    ensures Cleared(0) == 0
  {
  }

  lemma {:induction false} CascadeServed(c: Chip)
    requires c.isr == 0
    ensures Cleared(Service(c, 4).isr) == 0 && Service(c, 4).base == c.base
  {
  }

  lemma {:induction false} MasterServed(p: Pair)
    requires p.master.isr == 0
    ensures Cleared(Service(p.master, MasterTop(p)).isr) == 0 && Service(p.master, MasterTop(p)).base == p.master.base
  {
    hide MasterLines, SlaveTop, Top, Cleared;
    LowBitAlone(MasterLines(p, SlaveTop(p) != 0), p.master.imr);
  }

  lemma {:induction false} SlaveServed(p: Pair)
    requires p.slave.isr == 0
    ensures Cleared(Service(p.slave, SlaveTop(p)).isr) == 0 && Service(p.slave, SlaveTop(p)).base == p.slave.base
  {
    hide Top, Cleared;
    LowBitAlone(p.slave.irr, p.slave.imr);
  }

  lemma {:induction false} LowBitAlone(irr: bv8, imr: bv8)
    ensures Cleared(0 | Top(irr, imr, 0)) == 0
  {
  }

  lemma {:induction false} LineVector(bit: bv8)
    ensures 32 <= 0x20 | LineOf(bit) < 48 && 32 <= 0x28 | LineOf(bit) < 48
  {
  }

  /** Acknowledging on idle controllers with the kernel's bases puts at most one line of each in service and
      gives a vector from 32 to 47. */
  lemma {:induction false} AcknowledgeIdle(p: Pair, f: Found)
    requires InService(p) == (0, 0) && p.master.base == 0x20 && p.slave.base == 0x28
    ensures var (q, v) := Acknowledge(p, f);
      32 <= v < 48 && OneEach(q) && q.master.base == p.master.base && q.slave.base == p.slave.base
  {
    hide Cleared, LineOf, MasterTop, SlaveTop, Service;
    NothingInService();
    match f {
      case MasterLine => MasterServed(p); LineVector(MasterTop(p));
      case SlaveLine => CascadeServed(p.master); SlaveServed(p); LineVector(SlaveTop(p));
      case SpuriousMaster =>
      case SpuriousSlave => CascadeServed(p.master);
    }
  }

  /** The number of a vector, as an index and as the stub pushes it. */
  lemma {:induction false} VectorNumber(v: bv8)
    requires 32 <= v < 48
    ensures 32 <= v as int < 48 && (v == 32 <==> v as int == 32)
  {
  }

  lemma {:induction false} StubVector(n: nat)
    requires 32 <= n < 48
    ensures ByteOf(n) >= 8
  {
  }

  lemma {:induction false} StubOfGate(idt: seq<Gate>, stubs: seq<u32>, v: nat)
    requires Wired(idt, stubs) && 32 <= v < 48
    ensures Usable(idt[v]) && ClearsIf(idt[v]) && StubAt(stubs, EntryPoint(idt[v])) == Some(v)
  {
    hide EntryPoint, Usable, ClearsIf;
    InterruptGateUsable(idt[v]);
  }

  /** Each vector is served through its own gate by its own stub. */
  lemma {:induction false} AcceptedIs(s: Sys, f: Found)
    requires Inv(s) && s.mode.Program?
    ensures var (q, v) := Acknowledge(s.pics, f);
      && 32 <= v as int < 48 && (v == 32 <==> v as int == 32)
      && ClearsIf(s.idt[v as int])
      && Accepted(s, f) == s.(pics := q, cpu := Deliver(s.cpu, s.idt[v as int], None),
                              mode := Entry(s.cpu, s.idt[v as int], v as int, 0))
  {
    hide Acknowledge, Wired, TimerOnIrq0, Deliver, Usable, ClearsIf, EntryPoint, Fit;
    AcknowledgeIdle(s.pics, f);
    var v := Acknowledge(s.pics, f).1;
    VectorNumber(v);
    assert |s.idt| == 256 by { WiredSize(s.idt, s.stubs); }
    StubOfGate(s.idt, s.stubs, v as int);
  }

  lemma {:induction false} WiredSize(idt: seq<Gate>, stubs: seq<u32>)
    requires Wired(idt, stubs)
    ensures |idt| == 256 && |stubs| == 48
  {
  }

  lemma {:induction false} DeliveredDisabled(c: Cpu, g: Gate)
    requires ClearsIf(g)
    ensures !Enabled(Deliver(c, g, None).eflags)
  {
    hide ClearFlag, Enabled, ClearsIf;
    ClearedFlag(ClearFlag(ClearFlag(ClearFlag(ClearFlag(c.eflags, 0x100), 0x4000), 0x1_0000), 0x2_0000));
  }

  /** The gate's type matters: a service starts with IF clear exactly if the gate is an interrupt gate.
      Through a trap gate any further interrupt is taken inside the stub, and the machine is lost. */
  lemma {:induction false} GateTypeIff(prog: Prog, s: Sys, f: Found)
    requires s.mode.Program? && Next(prog, Accept(f), s, Accepted(s, f)) && Accepted(s, f).mode.Entry?
    ensures var t := Accepted(s, f);
      && (!Enabled(t.cpu.eflags) <==> ClearsIf(t.mode.gate))
      && forall f' :: !ClearsIf(t.mode.gate) && CanFind(t.pics, f') ==>
           Next(prog, Accept(f'), t, Accepted(t, f')) && Accepted(t, f').mode.Lost?
  {
    hide Acknowledge, CanFind, ClearFlag, Enabled, Usable, ClearsIf, EntryPoint;
    var e := s.cpu.eflags;
    OtherFlagsKeepIf(e);
    ClearedFlag(ClearFlag(ClearFlag(ClearFlag(ClearFlag(e, 0x100), 0x4000), 0x1_0000), 0x2_0000));
  }

  lemma {:induction false} OtherFlagsKeepIf(e: u32)
    ensures Enabled(ClearFlag(ClearFlag(ClearFlag(ClearFlag(e, 0x100), 0x4000), 0x1_0000), 0x2_0000)) == Enabled(e)
  {
    hide ClearFlag, Enabled;
    FlagKeepsIf(e, 0x100);
    var e1 := ClearFlag(e, 0x100);
    FlagKeepsIf(e1, 0x4000);
    var e2 := ClearFlag(e1, 0x4000);
    FlagKeepsIf(e2, 0x1_0000);
    FlagKeepsIf(ClearFlag(e2, 0x1_0000), 0x2_0000);
  }

  lemma {:induction false} FlagKeepsIf(e: u32, bit: u32)
    requires bit == 0x100 || bit == 0x4000 || bit == 0x1_0000 || bit == 0x2_0000
    ensures Enabled(ClearFlag(e, bit)) == Enabled(e)
  {
    if e / bit % 2 == 1 {
      var q := e / 0x200;
      assert bit == 0x100 ==> (e - bit) / 0x200 == q;
      assert bit == 0x4000 ==> (e - bit) / 0x200 == q - 32;
      assert bit == 0x1_0000 ==> (e - bit) / 0x200 == q - 128;
      assert bit == 0x2_0000 ==> (e - bit) / 0x200 == q - 256;
      assert (q - 32) % 2 == q % 2 && (q - 128) % 2 == q % 2 && (q - 256) % 2 == q % 2;
    }
  }

  /** Only the running program can be interrupted, as IF is clear in every step of a service. */
  lemma {:induction false} AcceptsInProgram(s: Sys)
    requires Inv(s) && Enabled(s.cpu.eflags)
    ensures s.mode.Program?
  {
    hide Enabled, Wired, TimerOnIrq0, Fit, Run, AtCall, AfterCall;
  }

  lemma {:induction false} AcceptKeeps(prog: Prog, f: Found, s: Sys, t: Sys)
    requires Inv(s) && Next(prog, Accept(f), s, t)
    ensures Inv(t) && Visible(t) == Visible(s) && t.mode.Entry?
  {
    hide Cleared, EoiOk, OneEach, Acknowledge, CanFind, Fit, IrqPrologue, Wired, TimerOnIrq0, Deliver, Enabled, ClearsIf;
    AcceptsInProgram(s);
    AcknowledgeIdle(s.pics, f);
    AcceptedIs(s, f);
    DeliveredDisabled(s.cpu, s.idt[Acknowledge(s.pics, f).1 as int]);
  }

  lemma {:induction false} StaysDisabled(i: Instr, c: Cpu)
    requires i != Iret && !Enabled(c.eflags)
    ensures !Enabled(Exec(i, c).eflags)
  {
  }

  lemma {:induction false} EntryKeeps(prog: Prog, s: Sys, t: Sys)
    requires Inv(s) && Next(prog, StubEntry, s, t)
    ensures Inv(t) && Visible(t) == Visible(s)
  {
    hide Cleared, EoiOk, OneEach, Fit, Exec, Deliver, Enabled, ClearsIf, Wired, TimerOnIrq0;
    StaysDisabled(IrqPrologue(s.mode.stub)[s.mode.k], s.cpu);
  }

  lemma {:induction false} CallKeeps(prog: Prog, s: Sys, t: Sys)
    requires Inv(s) && Next(prog, Call, s, t)
    ensures Inv(t) && Visible(t) == Visible(s)
  {
    hide Cleared, EoiOk, OneEach, Fit, Exec, Deliver, Enabled, IrqPrologue, ClearsIf, Wired, TimerOnIrq0;
  }

  /** The dispatcher reads the vector that the stub pushed, through the pointer it was given. */
  lemma {:induction false} IntNoIsStub(s: Sys)
    requires Inv(s) && (s.mode.Body? || s.mode.Eoi?)
    ensures FrameAt(s.cpu, Last(s.cpu)) == Saved(s.mode.saved, s.mode.stub)
    ensures IntNo(s.cpu) == s.mode.stub && 32 <= s.mode.stub < 48
  {
    hide Cleared, EoiOk, OneEach, AtCall, Enabled, ClearsIf, Wired, TimerOnIrq0, FrameAt;
    FieldsSeen(s.mode.saved, s.mode.stub, s.mode.gate);
  }

  lemma {:induction false} CallbackKeeps(prog: Prog, s: Sys, t: Sys)
    requires Inv(s) && Next(prog, Callback, s, t)
    ensures Inv(t) && Visible(t) == Visible(s)
    ensures t.ticks == if s.mode.stub == IRQ0 then Wrap(s.ticks + 1) else s.ticks
  {
    hide Cleared, OneEach, Fit, AtCall, Enabled, Wrap, IntNo, ByteOf, ClearsIf, Wired;
    IntNoIsStub(s);
    StubVector(s.mode.stub);
    SameServiceKeeps(s.pics, t.pics);
  }

  lemma {:induction false} PortKeeps(prog: Prog, s: Sys, t: Sys)
    requires Inv(s) && Next(prog, PortWrite, s, t)
    ensures Inv(t) && Visible(t) == Visible(s)
  {
    hide Fit, Enabled, Wrap, Cleared, Command, Data, AtCall, ClearsIf, Wired, TimerOnIrq0;
    EoiCommand(s.pics.master);
    EoiCommand(s.pics.slave);
  }

  lemma {:induction false} ReturnKeeps(prog: Prog, h: Effect, s: Sys, t: Sys)
    requires Inv(s) && Next(prog, ReturnC(h), s, t)
    ensures Inv(t) && Visible(t) == Visible(s)
  {
    hide Fit, Enabled, Wrap, Saved, AtCall, Laid, IrqEpilogue, FrameAt, ClearsIf, Wired, TimerOnIrq0;
    IntNoIsStub(s);
  }

  lemma {:induction false} ExitKeeps(prog: Prog, s: Sys, t: Sys)
    requires Inv(s) && Next(prog, StubExit, s, t)
    ensures Inv(t) && Visible(t) == Visible(s)
  {
    hide Enabled, Wrap, Saved, AfterCall, Exec, ClearsIf, Wired, TimerOnIrq0;
    var m := s.mode;
    if m.k == 8 {
      TransparentIff(m.saved, m.stub, m.gate, m.h);
    } else {
      StaysDisabled(IrqEpilogue()[m.k], s.cpu);
    }
  }

  /** Every step keeps the invariant; only a step of the program changes what the program sees. */
  lemma {:induction false} StepKeeps(prog: Prog, e: Event, s: Sys, t: Sys)
    requires StaysFit(prog) && Inv(s) && Next(prog, e, s, t)
    ensures Inv(t)
    ensures Visible(t) == if e.ProgramStep? then prog(Visible(s), s.ticks) else Visible(s)
  {
    hide Inv, Next, Visible;
    match e {
      case Device => DeviceKeeps(prog, s, t);
      case ProgramStep => ProgramKeeps(prog, s, t);
      case Accept(f) => AcceptKeeps(prog, f, s, t);
      case StubEntry => EntryKeeps(prog, s, t);
      case Call => CallKeeps(prog, s, t);
      case Callback => CallbackKeeps(prog, s, t);
      case PortWrite => PortKeeps(prog, s, t);
      case ReturnC(h) => ReturnKeeps(prog, h, s, t);
      case StubExit => ExitKeeps(prog, s, t);
    }
  }

  // ---------------------------------------------------------------- whole runs

  /** `trace` is a run that takes the steps `events`. */
  ghost predicate IsRun(prog: Prog, events: seq<Event>, trace: seq<Sys>) {
    |trace| == |events| + 1 && forall i :: 0 <= i < |events| ==> Next(prog, events[i], trace[i], trace[i + 1])
  }

  /** The tick counts that the program's own steps met. */
  function TicksSeen(events: seq<Event>, trace: seq<Sys>): seq<u32>
    requires |trace| == |events| + 1
  {
    if events == [] then []
    else
      var n := |events| - 1;
      TicksSeen(events[..n], trace[..n + 1]) + if events[n].ProgramStep? then [trace[n].ticks] else []
  }

  /** The program running alone, given the tick counts it meets. */
  function Alone(prog: Prog, c: Cpu, ticks: seq<u32>): Cpu {
    if ticks == [] then c else prog(Alone(prog, c, ticks[..|ticks| - 1]), ticks[|ticks| - 1])
  }

  /** Interrupts are invisible. In every run, whatever devices do and wherever interrupts strike, the
      state of the program is what the program alone would have computed, step for step. */
  lemma {:induction false} RunTransparent(prog: Prog, events: seq<Event>, trace: seq<Sys>)
    requires StaysFit(prog) && IsRun(prog, events, trace) && Inv(trace[0])
    ensures Inv(trace[|events|])
    ensures Visible(trace[|events|]) == Alone(prog, Visible(trace[0]), TicksSeen(events, trace))
    decreases |events|
  {
    hide Inv, Next, Visible, StaysFit;
    var n := |events| - 1;
    if events != [] {
      var s, t := trace[n], trace[n + 1];
      RunTransparent(prog, events[..n], trace[..n + 1]);
      StepKeeps(prog, events[n], s, t);
      var before := TicksSeen(events[..n], trace[..n + 1]);
      if events[n].ProgramStep? {
        assert (before + [s.ticks])[..|before|] == before;
      } else {
        assert before + [] == before;
      }
    }
  }

  /** 1 if the step takes an interrupt for which the controllers give vector 32. */
  function TimerTaken(e: Event, s: Sys): nat {
    if e.Accept? && Acknowledge(s.pics, e.f).1 == 32 then 1 else 0
  }

  /** The timer interrupts taken in a run. */
  function TimersTaken(events: seq<Event>, trace: seq<Sys>): nat
    requires |trace| == |events| + 1
  {
    if events == [] then 0
    else
      var n := |events| - 1;
      TimersTaken(events[..n], trace[..n + 1]) + TimerTaken(events[n], trace[n])
  }

  /** 1 while a timer interrupt is on its way to its callback. */
  function InFlight(s: Sys): nat {
    if (s.mode.Entry? || s.mode.Body?) && s.mode.stub == IRQ0 then 1 else 0
  }

  /** The timer interrupts served in a run: those taken before and in it, less the one still in flight. */
  function TimersServed(events: seq<Event>, trace: seq<Sys>): int
    requires |trace| == |events| + 1
  {
    InFlight(trace[0]) + TimersTaken(events, trace) - InFlight(trace[|events|])
  }

  /** No step loses or invents a timer interrupt: it is in flight, or it is in the counter. */
  lemma {:induction false} StepCounts(prog: Prog, e: Event, s: Sys, t: Sys)
    requires Inv(s) && Next(prog, e, s, t)
    ensures var served := InFlight(s) + TimerTaken(e, s) - InFlight(t);
      0 <= served <= 1 && t.ticks == Wrap(s.ticks + served)
  {
    hide Inv, Exec, Wrap, IntNo, Acknowledge, Accepted, Deliver, SameService;
    WrapSmall(s.ticks);
    if e.Accept? {
      AcceptCounts(prog, e.f, s, t);
    } else if e.Callback? {
      CallbackCounts(prog, s, t);
    }
  }

  lemma {:induction false} AcceptCounts(prog: Prog, f: Found, s: Sys, t: Sys)
    requires Inv(s) && Next(prog, Accept(f), s, t)
    ensures InFlight(s) == 0 && InFlight(t) == TimerTaken(Accept(f), s) && t.ticks == s.ticks
  {
    hide Inv, Acknowledge, Accepted, Deliver, CanFind, Enabled;
    AcceptsInProgram(s);
    AcceptedIs(s, f);
  }

  lemma {:induction false} CallbackCounts(prog: Prog, s: Sys, t: Sys)
    requires Inv(s) && Next(prog, Callback, s, t)
    ensures s.mode.Body? && t.mode.Eoi? && t.ticks == if s.mode.stub == IRQ0 then Wrap(s.ticks + 1) else s.ticks
  {
    hide Cleared, OneEach, Fit, AtCall, Enabled, Wrap, IntNo, ByteOf, ClearsIf, Wired, EoiWrites;
    IntNoIsStub(s);
  }

  /** The tick counter counts exactly the timer interrupts served, modulo 2^32. */
  lemma {:induction false} RunCounts(prog: Prog, events: seq<Event>, trace: seq<Sys>)
    requires StaysFit(prog) && IsRun(prog, events, trace) && Inv(trace[0])
    ensures TimersServed(events, trace) >= 0
    ensures trace[|events|].ticks == Wrap(trace[0].ticks + TimersServed(events, trace))
    decreases |events|
  {
    hide Inv, Next, StaysFit, Wrap, InFlight, TimerTaken;
    if events == [] {
      WrapSmall(trace[0].ticks);
    } else {
      var n := |events| - 1;
      RunCounts(prog, events[..n], trace[..n + 1]);
      RunTransparent(prog, events[..n], trace[..n + 1]);
      StepCounts(prog, events[n], trace[n], trace[n + 1]);
      ServedStep(events, trace);
      WrapAdd(trace[0].ticks + TimersServed(events[..n], trace[..n + 1]),
              TimersServed(events, trace) - TimersServed(events[..n], trace[..n + 1]));
    }
  }

  lemma {:induction false} ServedStep(events: seq<Event>, trace: seq<Sys>)
    requires |trace| == |events| + 1 && events != []
    ensures var n := |events| - 1;
      TimersServed(events, trace)
        == TimersServed(events[..n], trace[..n + 1]) + InFlight(trace[n]) + TimerTaken(events[n], trace[n]) - InFlight(trace[n + 1])
  {
  }

  /** In every state of every run: with interrupts enabled no line is in service on either controller,
      and the tick counter is the number of timer interrupts served so far, modulo 2^32. */
  lemma {:induction false} RunSafe(prog: Prog, events: seq<Event>, trace: seq<Sys>, i: nat)
    requires StaysFit(prog) && IsRun(prog, events, trace) && Inv(trace[0]) && i <= |events|
    ensures Enabled(trace[i].cpu.eflags) ==> InService(trace[i].pics) == (0, 0)
    ensures trace[i].ticks == Wrap(trace[0].ticks + TimersServed(events[..i], trace[..i + 1]))
  {
    hide Enabled, Next, StaysFit, Run, AtCall, AfterCall, Wired, TimerOnIrq0, Wrap, TimersServed, Fit;
    assert IsRun(prog, events[..i], trace[..i + 1]);
    RunTransparent(prog, events[..i], trace[..i + 1]);
    RunCounts(prog, events[..i], trace[..i + 1]);
  }

  /** Hence no line stays blocked: with interrupts enabled an unmasked request on any line of the master,
      or of the slave if line 2 is unmasked, makes the master ask for an interrupt. */
  lemma {:induction false} NoLineBlocked(p: Pair)
    requires InService(p) == (0, 0)
    ensures MasterLines(p, false) & !p.master.imr != 0 ==> MasterTop(p) != 0
    ensures p.slave.irr & !p.slave.imr != 0 && p.master.imr & 4 == 0 ==> MasterTop(p) != 0
  {
  }

  // ---------------------------------------------------------------- every service ends

  /** The processor steps that are left until the program resumes. */
  function Remaining(m: Mode): int {
    match m
    case Program => 0
    case Lost => 0
    case Entry(_, _, _, k) => 27 - k
    case Body(_, _, _) => 13
    case Eoi(_, _, _, left) => 10 + |left|
    case Exit(_, _, _, _, k) => 9 - k
  }

  /** An interrupt service cannot be interrupted, and each of its steps brings `iret` nearer. */
  lemma {:induction false} ServiceShrinks(prog: Prog, e: Event, s: Sys, t: Sys)
    requires Inv(s) && !s.mode.Program? && Next(prog, e, s, t) && e != Device
    ensures !e.ProgramStep? && !e.Accept?
    ensures 0 <= Remaining(t.mode) < Remaining(s.mode)
  {
    hide Exec, AfterCall, Saved, OneEach, Cleared, Command, Data, Fit, AtCall, Run, Deliver, Wrap, Enabled, FrameAt,
         Wired, TimerOnIrq0, ClearsIf, Accepted;
    if e.Callback? { IntNoIsStub(s); }
  }

  /** Nor can it get stuck: the processor always has the next step of it to take. */
  lemma {:induction false} ServiceGoesOn(prog: Prog, s: Sys) returns (e: Event, t: Sys)
    requires Inv(s) && !s.mode.Program?
    ensures e != Device && Next(prog, e, s, t)
  {
    hide Exec, AfterCall, Saved, OneEach, Cleared, Command, Data, Fit, AtCall, Run, Deliver, Wrap, Enabled, FrameAt,
         Wired, ClearsIf, Returned, ByteOf, EoiWrites;
    var m := s.mode;
    match m {
      case Entry(saved, g, n, k) =>
        if k < 13 {
          e := StubEntry;
          t := s.(cpu := Exec(IrqPrologue(n)[k], s.cpu), mode := Entry(saved, g, n, k + 1));
        } else {
          e, t := Call, s.(mode := Body(saved, g, n));
        }
      case Body(saved, g, n) =>
        IntNoIsStub(s);
        e := Callback;
        t := s.(ticks := if s.handlers[n] == TimerCallback then Wrap(s.ticks + 1) else s.ticks,
                mode := Eoi(saved, g, n, EoiWrites(ByteOf(n))));
      case Eoi(saved, g, n, left) =>
        if left != [] {
          e := PortWrite;
          t := s.(pics := OutPort(s.pics, left[0].port, left[0].v), mode := Eoi(saved, g, n, left[1..]));
        } else {
          var h := Effect(0, 0, 0, 0, 0, FrameAt(s.cpu, Last(s.cpu)));
          NotEnabled();
          e := ReturnC(h);
          t := s.(cpu := Returned(s.cpu, h), mode := Exit(saved, g, n, h, 0));
        }
      case Exit(saved, g, n, h, k) =>
        e := StubExit;
        t := s.(cpu := Exec(IrqEpilogue()[k], s.cpu), mode := if k == 8 then Program else Exit(saved, g, n, h, k + 1));
    }
  }

  lemma {:induction false} NotEnabled()
    ensures !Enabled(0)
  {
  }
}
