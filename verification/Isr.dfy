/** The tables of IDT.c and ISR.c, `irq_handler`, and the machine that booting them starts. */
module Isr {
  import opened CTypes
  import opened Idt
  import opened Pic
  import opened Stub
  import opened Interrupts
  import opened Timer

  class Tables {
    const idt: array<Gate>
    const handlers: array<Handler>   // interrupt_handlers
    const controllers: Controllers
    const counter: Counter           // the static counter of timer.c

    constructor (pics: Pair, idle: Gate)
      ensures fresh(idt) && fresh(handlers) && fresh(controllers) && fresh(counter)
      ensures idt.Length == handlers.Length == 256 && controllers.pics == pics && counter.ticks == 0
      ensures forall v :: 0 <= v < 256 ==> handlers[v] == NoHandler
    {
      idt := new Gate[256](_ => idle);
      handlers := new Handler[256](_ => NoHandler);
      controllers := new Controllers(pics);
      counter := new Counter(0);
    }

    method IdtSetDescriptor(vector: byte, isr: u32, flags: byte)
      requires idt.Length == 256
      modifies idt
      ensures idt[..] == old(idt[..])[vector := GateFor(isr, flags)]
      ensures var g := idt[vector];
        && g.isrLo == isr % 0x1_0000 && g.isrHi == isr / 0x1_0000
        && g.kernelCs == 8 && g.attributes == flags && g.reserved == 0
    {
      idt[vector] := GateFor(isr, flags);
    }

    /** `isr_install`, with the 48 stub addresses of exception_handler.asm in vector order. */
    method IsrInstall(stubs: seq<u32>)
      requires idt.Length == 256 && |stubs| == 48
      modifies idt, controllers
      ensures forall v :: 0 <= v < 48 ==> EntryPoint(idt[v]) == stubs[v] && IsInterruptGate(idt[v])
      ensures forall v :: 0 <= v < 48 ==> idt[v].attributes == 0x8E && idt[v].kernelCs == 8
      ensures idt[48..] == old(idt[48..])
      ensures controllers.pics == Installed(old(controllers.pics)) && MaskSet(controllers.pics) == iset{}
    {
      InstalledUnmasked(controllers.pics);
      InstallGates(stubs, 0, 32);
      controllers.InstallControllers();
      InstallGates(stubs, 32, 48);
    }

    /** A row of `idt_set_descriptor` calls. */
    method InstallGates(stubs: seq<u32>, lo: nat, hi: nat)
      requires idt.Length == 256 && |stubs| == 48 && lo <= hi <= 48
      modifies idt
      ensures idt[..lo] == old(idt[..lo]) && idt[hi..] == old(idt[hi..])
      ensures forall v :: lo <= v < hi ==> EntryPoint(idt[v]) == stubs[v] && IsInterruptGate(idt[v])
    {
      var v := lo;
      while v < hi
        invariant lo <= v <= hi
        invariant idt[..lo] == old(idt[..lo]) && idt[hi..] == old(idt[hi..])
        invariant forall w :: lo <= w < v ==> EntryPoint(idt[w]) == stubs[w] && IsInterruptGate(idt[w])
      {
        GateKeepsAddress(stubs[v], 0x8E);
        IdtSetDescriptor(v, stubs[v], 0x8E);
        v := v + 1;
      }
    }

    method RegisterInterruptHandler(vector: byte, handler: Handler)
      requires handlers.Length == 256
      modifies handlers
      ensures handlers[..] == old(handlers[..])[vector := handler]
    {
      handlers[vector] := handler;
    }

    /** `irq_handler`: the callback if there is one, then the EOI, with the vector for the line. `other`
        stands for what a handler outside this model does to masks and requests. */
    method IrqHandler(intNo: u32, other: Pair)
      requires handlers.Length == 256 && intNo < 256 && SameService(controllers.pics, other)
      modifies counter, controllers
      ensures counter.ticks == if handlers[intNo] == TimerCallback then Wrap(old(counter.ticks) + 1) else old(counter.ticks)
      ensures controllers.pics ==
        Apply(if handlers[intNo] == Other then other else old(controllers.pics), EoiWrites(ByteOf(intNo)))
    {
      if handlers[intNo] != NoHandler {
        if handlers[intNo] == TimerCallback {
          counter.Callback();
        } else {
          controllers.pics := other;
        }
      }
      controllers.PicEoi(ByteOf(intNo));
    }

    /** The machine in the state of these tables, with the processor in the program. */
    ghost function Machine(stubs: seq<u32>, cpu: Cpu): Sys
      reads idt, handlers, controllers, counter
    {
      Sys(cpu, controllers.pics, idt[..], stubs, handlers[..], counter.ticks, Program)
    }

    /** The boot sequence: `init_timer` registers the timer, then `isr_install` fills in gates and
        controllers and enables interrupts. From there on everything proved of the machine's runs holds. */
    method Boot(stubs: seq<u32>, ghost cpu: Cpu)
      requires idt.Length == handlers.Length == 256 && forall v :: 0 <= v < 256 ==> handlers[v] == NoHandler
      requires |stubs| == 48 && forall i, j :: 0 <= i < j < 48 ==> stubs[i] != stubs[j]
      requires InService(controllers.pics) == (0, 0) && Fit(cpu)
      modifies idt, handlers, controllers
      ensures Inv(Machine(stubs, cpu)) && Configured(controllers.pics) && counter.ticks == old(counter.ticks)
      ensures MaskSet(controllers.pics) == iset{} && InService(controllers.pics) == (0, 0) && handlers[32] == TimerCallback
      ensures forall v :: 0 <= v < 48 ==> EntryPoint(idt[v]) == stubs[v] && IsInterruptGate(idt[v])
    {
      hide EntryPoint, IsInterruptGate, Fit;
      ghost var pics := controllers.pics;
      RegisterInterruptHandler(IRQ0, TimerCallback);
      IsrInstall(stubs);
      InstalledReady(pics);
    }
  }

  /** After booting, whatever lines devices raise on either controller, the master asks for an interrupt. */
  lemma {:induction false} BootedLinesAsk(t: Tables, p: Pair)
    requires MaskSet(t.controllers.pics) == iset{} && InService(t.controllers.pics) == (0, 0)
    requires var q := t.controllers.pics; p == Pair(q.master.(irr := p.master.irr), q.slave.(irr := p.slave.irr))
    ensures p.master.irr & 0xFB != 0 || p.slave.irr != 0 ==> MasterTop(p) != 0
  {
    hide MasterTop;
    SameMasks(t.controllers.pics, p);
    EveryLineAsks(p);
  }

  lemma {:induction false} InstalledReady(p: Pair)
    requires InService(p) == (0, 0)
    ensures var q := Installed(p);
      InService(q) == (0, 0) && Configured(q) && q.master.base == 0x20 && q.slave.base == 0x28
  {
    BasesInstalled();
  }

  /** The machine's port writes, taken one by one, add up to what `PicEoi` does in one call. */
  lemma {:induction false} PortWritesApply(prog: Prog, events: seq<Event>, trace: seq<Sys>, left: seq<Write>)
    requires IsRun(prog, events, trace) && |events| == |left|
    requires forall i :: 0 <= i < |events| ==> events[i] == PortWrite
    requires trace[0].mode.Eoi? && trace[0].mode.left == left
    ensures var t := trace[|events|];
      t == trace[0].(pics := Apply(trace[0].pics, left), mode := trace[0].mode.(left := []))
    decreases |events|
  {
    hide OutPort;
    if events != [] {
      assert Next(prog, events[0], trace[0], trace[1]);
      PortWritesApply(prog, events[1..], trace[1..], left[1..]);
    }
  }

  /** The machine's callback and port writes together do to ticks and controllers exactly what the
      contract of `IrqHandler` says of the vector that the frame holds, with `other` the controllers as the
      callback left them. */
  lemma {:induction false} MachineDoesIrqHandler(prog: Prog, s: Sys, events: seq<Event>, trace: seq<Sys>)
    requires IsRun(prog, events, trace) && s.mode.Body? && Next(prog, Callback, s, trace[0])
    requires IntNo(s.cpu) < |s.handlers| && |events| == |EoiWrites(ByteOf(IntNo(s.cpu)))|
    requires forall i :: 0 <= i < |events| ==> events[i] == PortWrite
    ensures var v, other, t := IntNo(s.cpu), trace[0].pics, trace[|events|];
      && t.ticks == (if s.handlers[v] == TimerCallback then Wrap(s.ticks + 1) else s.ticks)
      && t.pics == Apply(if s.handlers[v] == Other then other else s.pics, EoiWrites(ByteOf(v)))
      && t.mode == Eoi(s.mode.saved, s.mode.gate, s.mode.stub, []) && t.cpu == s.cpu
  {
    hide EoiWrites, Apply, IsRun, IntNo, ByteOf;
    PortWritesApply(prog, events, trace, EoiWrites(ByteOf(IntNo(s.cpu))));
  }

  lemma {:induction false} BasesInstalled()
    ensures (0x20 as bv8) & 0xF8 == 0x20 && (0x28 as bv8) & 0xF8 == 0x28
  {
  }
}
