/** The interrupt stubs of exception_handler.asm, instruction by instruction. */
module Stub {
  import opened CTypes
  import opened Idt

  /** The registers, and the words on the stack, the newest last. `top` is the address just above the
      first word, so the word at index `j` is at `top - 4*(j+1)`. */
  datatype Cpu = Cpu(eax: u32, ebx: u32, ecx: u32, edx: u32, esi: u32, edi: u32, ebp: u32,
                     ds: u16, es: u16, fs: u16, gs: u16, cs: u16, eip: u32, eflags: u32,
                     top: u32, stack: seq<u32>)

  function Esp(c: Cpu): u32 { Wrap(c.top - 4 * |c.stack|) }

  function Push(c: Cpu, v: u32): Cpu { c.(stack := c.stack + [v]) }

  function Last(c: Cpu): u32 { if c.stack == [] then 0 else c.stack[|c.stack| - 1] }

  function Drop(c: Cpu): Cpu { if c.stack == [] then c else c.(stack := c.stack[..|c.stack| - 1]) }

  // ---------------------------------------------------------------- flags

  const IF_FLAG := 0x200

  function ClearFlag(e: u32, bit: u32): u32
    requires bit > 0
  {
    if e / bit % 2 == 1 then e - bit else e
  }

  predicate Enabled(e: u32) { e / IF_FLAG % 2 == 1 }

  lemma {:induction false} ClearedFlag(e: u32)
    ensures !Enabled(ClearFlag(e, IF_FLAG))
  {
  }

  /** Entering a gate clears TF, NT, RF and VM; an interrupt gate clears IF too. */
  function Entered(e: u32, g: Gate): u32 {
    var r := ClearFlag(ClearFlag(ClearFlag(ClearFlag(e, 0x100), 0x4000), 0x1_0000), 0x2_0000);
    if ClearsIf(g) then ClearFlag(r, IF_FLAG) else r
  }

  // ---------------------------------------------------------------- instructions

  datatype Seg = DS | ES | FS | GS

  datatype Instr =
    | Cli | PushByte(v: u32) | Jmp | Pusha | MovAxDs | PushEax | MovAx(w: u16) | MovFromAx(seg: Seg) | PushEsp
    | PopEbx | MovFromBx(seg: Seg) | Popa | AddEsp8 | Iret

  function SetSeg(c: Cpu, s: Seg, v: u16): Cpu {
    match s
    case DS => c.(ds := v)
    case ES => c.(es := v)
    case FS => c.(fs := v)
    case GS => c.(gs := v)
  }

  function SetAx(c: Cpu, v: u16): Cpu { c.(eax := c.eax / 0x1_0000 * 0x1_0000 + v) }

  function PushAll(c: Cpu): Cpu {
    Push(Push(Push(Push(Push(Push(Push(Push(c, c.eax), c.ecx), c.edx), c.ebx), Esp(c)), c.ebp), c.esi), c.edi)
  }

  /** POPA, skipping the word for ESP. */
  function PopAll(c: Cpu): Cpu {
    var c1 := Drop(c.(edi := Last(c)));
    var c2 := Drop(c1.(esi := Last(c1)));
    var c3 := Drop(c2.(ebp := Last(c2)));
    var c4 := Drop(c3);
    var c5 := Drop(c4.(ebx := Last(c4)));
    var c6 := Drop(c5.(edx := Last(c5)));
    var c7 := Drop(c6.(ecx := Last(c6)));
    Drop(c7.(eax := Last(c7)))
  }

  /** IRET to the same privilege level. */
  function Return(c: Cpu): Cpu {
    var c1 := Drop(c.(eip := Last(c)));
    var c2 := Drop(c1.(cs := Low16(Last(c1))));
    Drop(c2.(eflags := Last(c2)))
  }

  function Exec(i: Instr, c: Cpu): Cpu {
    match i
    case Cli => c.(eflags := ClearFlag(c.eflags, IF_FLAG))
    case PushByte(v) => Push(c, v)
    case Jmp => c
    case Pusha => PushAll(c)
    case MovAxDs => SetAx(c, c.ds)
    case PushEax => Push(c, c.eax)
    case MovAx(v) => SetAx(c, v)
    case MovFromAx(s) => SetSeg(c, s, Low16(c.eax))
    case PushEsp => Push(c, Esp(c))
    case PopEbx => Drop(c.(ebx := Last(c)))
    case MovFromBx(s) => SetSeg(c, s, Low16(c.ebx))
    case Popa => PopAll(c)
    case AddEsp8 => Drop(Drop(c))
    case Iret => Return(c)
  }

  /** The state after the first `k` instructions. */
  function Run(p: seq<Instr>, c: Cpu, k: nat): Cpu
    requires k <= |p|
    decreases k
  {
    if k == 0 then c else Exec(p[k - 1], Run(p, c, k - 1))
  }

  /** The stub of macro IRQ and `irq_common_stub`, up to the call of `irq_handler`. */
  function IrqPrologue(vector: u32): seq<Instr> {
    [Cli, PushByte(0), PushByte(vector), Jmp, Pusha, MovAxDs, PushEax, MovAx(0x10),
     MovFromAx(DS), MovFromAx(ES), MovFromAx(FS), MovFromAx(GS), PushEsp]
  }

  /** The rest of `irq_common_stub`, after the call. */
  function IrqEpilogue(): seq<Instr> {
    [PopEbx, PopEbx, MovFromBx(DS), MovFromBx(ES), MovFromBx(FS), MovFromBx(GS), Popa, AddEsp8, Iret]
  }

  /** What the processor does to enter a gate without privilege change; some exceptions push a code. */
  function Deliver(c: Cpu, g: Gate, code: Option<u32>): Cpu {
    var entered := Push(Push(Push(c, c.eflags), c.cs), c.eip).(cs := g.kernelCs, eip := EntryPoint(g), eflags := Entered(c.eflags, g));
    if code.Some? then Push(entered, code.value) else entered
  }

  // ---------------------------------------------------------------- the saved frame

  /** The fields of `cpu_state_t` up to `eflags`, in its order. */
  datatype Frame = Frame(ds: u32, edi: u32, esi: u32, ebp: u32, esp: u32, ebx: u32, edx: u32, ecx: u32, eax: u32,
                         intNo: u32, errCode: u32, eip: u32, cs: u32, eflags: u32)

  /** The stack with a frame on it, the structure's first field at the lowest address. */
  function Laid(s: seq<u32>, f: Frame): seq<u32> {
    s + [f.eflags] + [f.cs] + [f.eip] + [f.errCode] + [f.intNo] + [f.eax] + [f.ecx] + [f.edx] + [f.ebx] + [f.esp]
      + [f.ebp] + [f.esi] + [f.edi] + [f.ds]
  }

  /** The word at an address. */
  function Load(c: Cpu, a: u32): u32 {
    var j := (c.top - a) / 4 - 1;
    if 0 <= j < |c.stack| then c.stack[j] else 0
  }

  /** The frame that C code sees through a `cpu_state_t *`. */
  function FrameAt(c: Cpu, p: u32): Frame {
    Frame(Load(c, Wrap(p + 0)), Load(c, Wrap(p + 4)), Load(c, Wrap(p + 8)), Load(c, Wrap(p + 12)), Load(c, Wrap(p + 16)),
          Load(c, Wrap(p + 20)), Load(c, Wrap(p + 24)), Load(c, Wrap(p + 28)), Load(c, Wrap(p + 32)),
          Load(c, Wrap(p + 36)), Load(c, Wrap(p + 40)), Load(c, Wrap(p + 44)), Load(c, Wrap(p + 48)), Load(c, Wrap(p + 52)))
  }

  /** The interrupted state as a frame. The high half of the DS word is that of EAX. */
  function Saved(c: Cpu, vector: u32): Frame {
    Frame(c.eax / 0x1_0000 * 0x1_0000 + c.ds, c.edi, c.esi, c.ebp, Wrap(c.top - 4 * (|c.stack| + 5)),
          c.ebx, c.edx, c.ecx, c.eax, vector, 0, c.eip, c.cs, c.eflags)
  }

  /** The state in which `irq_handler` is called. */
  function AtCall(c: Cpu, vector: u32, g: Gate): Cpu {
    Run(IrqPrologue(vector), Deliver(c, g, None), 13)
  }

  lemma {:induction false} Unfold(p: seq<Instr>, c: Cpu, k: nat)
    requires 0 < k <= |p|
    ensures Run(p, c, k) == Exec(p[k - 1], Run(p, c, k - 1))
  {
  }

  /** The CPU after `pusha; mov ax, ds; push eax; mov ax, 0x10`. */
  function SavedRegs(c: Cpu): Cpu {
    var d := SetAx(PushAll(c), c.ds);
    SetAx(Push(d, d.eax), 0x10)
  }

  lemma {:induction false} RunToPusha(p: seq<Instr>, c: Cpu, vector: u32)
    requires |p| >= 4 && p[0] == Cli && p[1] == PushByte(0) && p[2] == PushByte(vector) && p[3] == Jmp
    ensures Run(p, c, 4) == Push(Push(Exec(Cli, c), 0), vector)
  {
    hide Push;
    Unfold(p, c, 1); Unfold(p, c, 2); Unfold(p, c, 3); Unfold(p, c, 4);
  }

  lemma {:induction false} RunToSegments(p: seq<Instr>, c: Cpu)
    requires |p| >= 8 && p[4] == Pusha && p[5] == MovAxDs && p[6] == PushEax && p[7] == MovAx(0x10)
    ensures Run(p, c, 8) == SavedRegs(Run(p, c, 4))
  {
    hide PushAll, SetAx, Push;
    Unfold(p, c, 5); Unfold(p, c, 6); Unfold(p, c, 7); Unfold(p, c, 8);
    PushAllKeepsDs(Run(p, c, 4));
  }

  lemma {:induction false} PushAllKeepsDs(c: Cpu)
    ensures PushAll(c).ds == c.ds
  {
  }

  lemma {:induction false} RunToCall(p: seq<Instr>, c: Cpu)
    requires |p| == 13 && p[8] == MovFromAx(DS) && p[9] == MovFromAx(ES) && p[10] == MovFromAx(FS)
    requires p[11] == MovFromAx(GS) && p[12] == PushEsp
    ensures var d := Run(p, c, 8);
      var s := Low16(d.eax);
      Run(p, c, 13) == Push(d.(ds := s, es := s, fs := s, gs := s), Esp(d))
  {
    hide Push, PushAll, PopAll, Return, SetAx, Run, Low16, Esp, Drop, Last, ClearFlag;
    Unfold(p, c, 9); Unfold(p, c, 10); Unfold(p, c, 11); Unfold(p, c, 12); Unfold(p, c, 13);
    EspSame(Run(p, c, 8), Run(p, c, 12));
  }

  lemma {:induction false} EspSame(c: Cpu, d: Cpu)
    requires c.top == d.top && c.stack == d.stack
    ensures Esp(c) == Esp(d)
  {
  }

  /** What is on the stack when the registers are saved: the declared frame. */
  lemma {:induction false} SavedRegsLayout(c: Cpu, vector: u32, g: Gate)
    ensures var d := SavedRegs(Push(Push(Exec(Cli, Deliver(c, g, None)), 0), vector));
      && d.stack == Laid(c.stack, Saved(c, vector)) && Low16(d.eax) == 0x10
      && d == c.(eax := d.eax, cs := g.kernelCs, eip := EntryPoint(g), eflags := d.eflags, stack := d.stack)
      && !Enabled(d.eflags)
  {
    hide Entered, ClearFlag, Enabled, EntryPoint, SetAx, Wrap;
    var c3 := Exec(Cli, Deliver(c, g, None));
    ClearedFlag(Entered(c.eflags, g));
    var c5 := Push(Push(c3, 0), vector);
    assert c5.stack == c.stack + [c.eflags] + [c.cs] + [c.eip] + [0] + [vector];
    var p := PushAll(c5);
    SetsAx(p, c.ds);
    var d := SetAx(p, c.ds);
    SetsAx(Push(d, d.eax), 0x10);
  }

  lemma {:induction false} SetsAx(c: Cpu, v: u16)
    ensures Low16(SetAx(c, v).eax) == v && SetAx(c, v) == c.(eax := c.eax / 0x1_0000 * 0x1_0000 + v)
  {
  }

  /** At the call, the stack holds the interrupted state in the order of `cpu_state_t`, and on top of it
      the pointer to it; only the data segments, EAX and the flags have changed otherwise. */
  lemma {:induction false} ReachesCall(c: Cpu, vector: u32, g: Gate)
    ensures var a := AtCall(c, vector, g);
      && a.stack == Laid(c.stack, Saved(c, vector)) + [Wrap(c.top - 4 * (|c.stack| + 14))]
      && a == c.(eax := a.eax, ds := 0x10, es := 0x10, fs := 0x10, gs := 0x10, cs := g.kernelCs, eip := EntryPoint(g), eflags := a.eflags, stack := a.stack)
      && !Enabled(a.eflags)
  {
    hide SavedRegs, Laid, Saved, Run, Deliver, Exec;
    var c0, p := Deliver(c, g, None), IrqPrologue(vector);
    RunToPusha(p, c0, vector);
    RunToSegments(p, c0);
    RunToCall(p, c0);
    SavedRegsLayout(c, vector, g);
    LaidLength(c.stack, Saved(c, vector));
  }

  lemma {:induction false} LaidLength(s: seq<u32>, f: Frame)
    ensures |Laid(s, f)| == |s| + 14
  {
  }

  /** The pointer passed to `irq_handler` sees every field in its declared place. */
  lemma {:induction false} FieldsSeen(c: Cpu, vector: u32, g: Gate)
    requires 4 * (|c.stack| + 15) <= c.top
    ensures var a := AtCall(c, vector, g);
      FrameAt(a, Last(a)) == Saved(c, vector)
  {
    hide AtCall, Saved, Load;
    var a, f := AtCall(c, vector, g), Saved(c, vector);
    ReachesCall(c, vector, g);
    FrameSeen(a, c.stack, f, Last(a));
  }

  /** The words of memory behind that pointer, one by one. */
  lemma {:induction false} WordsSeen(c: Cpu, vector: u32, g: Gate)
    requires 4 * (|c.stack| + 15) <= c.top
    ensures var a := AtCall(c, vector, g);
      var p := Last(a);
      && Load(a, Wrap(p)) % 0x1_0000 == c.ds
      && Load(a, Wrap(p + 4)) == c.edi && Load(a, Wrap(p + 8)) == c.esi && Load(a, Wrap(p + 12)) == c.ebp
      && Load(a, Wrap(p + 20)) == c.ebx && Load(a, Wrap(p + 24)) == c.edx && Load(a, Wrap(p + 28)) == c.ecx
      && Load(a, Wrap(p + 32)) == c.eax && Load(a, Wrap(p + 36)) == vector && Load(a, Wrap(p + 40)) == 0
      && Load(a, Wrap(p + 44)) == c.eip && Load(a, Wrap(p + 48)) == c.cs && Load(a, Wrap(p + 52)) == c.eflags
  {
    hide AtCall, Load, Wrap;
    FieldsSeen(c, vector, g);
  }

  lemma {:induction false} FrameSeen(a: Cpu, s: seq<u32>, f: Frame, p: u32)
    requires a.stack == Laid(s, f) + [p] && 4 * (|s| + 15) <= a.top && p == Wrap(a.top - 4 * (|s| + 14))
    ensures FrameAt(a, p) == f
  {
    hide Laid, Load, Wrap;
    FieldAt(a, s, f, p, 0); FieldAt(a, s, f, p, 1); FieldAt(a, s, f, p, 2); FieldAt(a, s, f, p, 3);
    FieldAt(a, s, f, p, 4); FieldAt(a, s, f, p, 5); FieldAt(a, s, f, p, 6); FieldAt(a, s, f, p, 7);
    FieldAt(a, s, f, p, 8); FieldAt(a, s, f, p, 9); FieldAt(a, s, f, p, 10); FieldAt(a, s, f, p, 11);
    FieldAt(a, s, f, p, 12); FieldAt(a, s, f, p, 13);
  }

  /** The fields by number, 0 being DS at the lowest address. */
  function Field(f: Frame, k: nat): u32 {
    match k
    case 0 => f.ds case 1 => f.edi case 2 => f.esi case 3 => f.ebp case 4 => f.esp case 5 => f.ebx case 6 => f.edx
    case 7 => f.ecx case 8 => f.eax case 9 => f.intNo case 10 => f.errCode case 11 => f.eip case 12 => f.cs case _ => f.eflags
  }

  lemma {:induction false} FieldAt(a: Cpu, s: seq<u32>, f: Frame, p: u32, k: nat)
    requires k < 14 && a.stack == Laid(s, f) + [p]
    requires 4 * (|s| + 15) <= a.top && p == Wrap(a.top - 4 * (|s| + 14))
    ensures Load(a, Wrap(p + 4 * k)) == Field(f, k)
  {
    hide Laid, Field, Wrap;
    WrapSmall(a.top - 4 * (|s| + 14));
    WrapSmall(p + 4 * k);
    LaidAt(s, f, k);
    assert a.stack[|s| + 13 - k] == Laid(s, f)[|s| + 13 - k];
  }

  lemma {:induction false} LaidAt(s: seq<u32>, f: Frame, k: nat)
    requires k < 14
    ensures |Laid(s, f)| == |s| + 14 && Laid(s, f)[|s| + 13 - k] == Field(f, k)
  {
  }

  // ---------------------------------------------------------------- the way back

  /** What a C function may leave behind under cdecl: scratch registers, flags, its argument slot, and,
      through the pointer, any change of the frame. */
  datatype Effect = Effect(eax: u32, ecx: u32, edx: u32, eflags: u32, slot: u32, frame: Frame)

  /** The state after a C function called in state `a` returned; the frame is the 14 words below the slot. */
  function Returned(a: Cpu, h: Effect): Cpu {
    var rest := if |a.stack| >= 15 then a.stack[..|a.stack| - 15] else [];
    a.(eax := h.eax, ecx := h.ecx, edx := h.edx, eflags := h.eflags, stack := Laid(rest, h.frame) + [h.slot])
  }

  function AfterCall(c: Cpu, vector: u32, g: Gate, h: Effect): Cpu { Returned(AtCall(c, vector, g), h) }

  lemma {:induction false} FrameReplaced(c: Cpu, vector: u32, g: Gate, h: Effect)
    ensures AfterCall(c, vector, g, h).stack == Laid(c.stack, h.frame) + [h.slot]
  {
    hide AtCall, Laid, Saved;
    var a, f := AtCall(c, vector, g), Saved(c, vector);
    ReachesCall(c, vector, g);
    LaidLength(c.stack, f);
    LaidPrefix(c.stack, f);
    assert a.stack[..|c.stack|] == Laid(c.stack, f)[..|c.stack|];
  }

  lemma {:induction false} LaidPrefix(s: seq<u32>, f: Frame)
    ensures |Laid(s, f)| == |s| + 14 && Laid(s, f)[..|s|] == s
  {
  }

  /** The state after `iret`. */
  function Resumed(c: Cpu, vector: u32, g: Gate, h: Effect): Cpu {
    Run(IrqEpilogue(), AfterCall(c, vector, g, h), 9)
  }

  /** The registers as a frame gives them back; the word for ESP is skipped. */
  function Restored(c: Cpu, f: Frame): Cpu {
    var s := Low16(f.ds);
    c.(edi := f.edi, esi := f.esi, ebp := f.ebp, ebx := f.ebx, edx := f.edx, ecx := f.ecx, eax := f.eax,
       ds := s, es := s, fs := s, gs := s, eip := f.eip, cs := Low16(f.cs), eflags := f.eflags)
  }

  lemma {:induction false} RunToPopa(p: seq<Instr>, c: Cpu, s: seq<u32>, ds: u32, slot: u32)
    requires |p| == 9 && p[0] == PopEbx && p[1] == PopEbx
    requires p[2] == MovFromBx(DS) && p[3] == MovFromBx(ES) && p[4] == MovFromBx(FS) && p[5] == MovFromBx(GS)
    requires c.stack == s + [ds] + [slot]
    ensures var v := Low16(ds);
      Run(p, c, 6) == c.(ebx := ds, ds := v, es := v, fs := v, gs := v, stack := s)
  {
    assert c.stack[..|c.stack| - 1] == s + [ds];
    assert (s + [ds])[..|s|] == s;
    Unfold(p, c, 1); Unfold(p, c, 2); Unfold(p, c, 3); Unfold(p, c, 4); Unfold(p, c, 5); Unfold(p, c, 6);
  }

  lemma {:induction false} DropLast(c: Cpu, s: seq<u32>, v: u32)
    requires c.stack == s + [v]
    ensures Last(c) == v && Drop(c) == c.(stack := s)
  {
  }

  lemma {:induction false} PopAllLaid(c: Cpu, s: seq<u32>, f: Frame)
    requires c.stack == s + [f.eax] + [f.ecx] + [f.edx] + [f.ebx] + [f.esp] + [f.ebp] + [f.esi] + [f.edi]
    ensures PopAll(c) == c.(edi := f.edi, esi := f.esi, ebp := f.ebp, ebx := f.ebx, edx := f.edx, ecx := f.ecx, eax := f.eax, stack := s)
  {
    hide Last, Drop;
    var s7 := s + [f.eax];
    var s6 := s7 + [f.ecx];
    var s5 := s6 + [f.edx];
    var s4 := s5 + [f.ebx];
    var s3 := s4 + [f.esp];
    var s2 := s3 + [f.ebp];
    var s1 := s2 + [f.esi];
    var c1 := c.(edi := f.edi, stack := s1);
    var c2 := c1.(esi := f.esi, stack := s2);
    var c3 := c2.(ebp := f.ebp, stack := s3);
    var c4 := c3.(stack := s4);
    var c5 := c4.(ebx := f.ebx, stack := s5);
    var c6 := c5.(edx := f.edx, stack := s6);
    var c7 := c6.(ecx := f.ecx, stack := s7);
    DropLast(c, s1, f.edi); DropLast(c.(edi := f.edi), s1, f.edi);
    DropLast(c1, s2, f.esi); DropLast(c1.(esi := f.esi), s2, f.esi);
    DropLast(c2, s3, f.ebp); DropLast(c2.(ebp := f.ebp), s3, f.ebp);
    DropLast(c3, s4, f.esp);
    DropLast(c4, s5, f.ebx); DropLast(c4.(ebx := f.ebx), s5, f.ebx);
    DropLast(c5, s6, f.edx); DropLast(c5.(edx := f.edx), s6, f.edx);
    DropLast(c6, s7, f.ecx); DropLast(c6.(ecx := f.ecx), s7, f.ecx);
    DropLast(c7, s, f.eax); DropLast(c7.(eax := f.eax), s, f.eax);
  }

  lemma {:induction false} RunToIret(p: seq<Instr>, c: Cpu, d: Cpu, s: seq<u32>, f: Frame)
    requires |p| == 9 && p[6] == Popa && p[7] == AddEsp8 && p[8] == Iret
    requires Run(p, c, 6) == d
    requires PopAll(d).stack == s + [f.eflags] + [f.cs] + [f.eip] + [f.errCode] + [f.intNo]
    ensures Run(p, c, 9) == PopAll(d).(eip := f.eip, cs := Low16(f.cs), eflags := f.eflags, stack := s)
  {
    hide Last, Drop, PopAll;
    Unfold(p, c, 7); Unfold(p, c, 8); Unfold(p, c, 9);
    var a := PopAll(d);
    var s3 := s + [f.eflags] + [f.cs] + [f.eip];
    DropLast(a, s3 + [f.errCode], f.intNo);
    DropLast(a.(stack := s3 + [f.errCode]), s3, f.errCode);
    var b := a.(stack := s3);
    DropLast(b, s + [f.eflags] + [f.cs], f.eip);
    DropLast(b.(eip := f.eip), s + [f.eflags] + [f.cs], f.eip);
    var b1 := b.(eip := f.eip, stack := s + [f.eflags] + [f.cs]);
    DropLast(b1, s + [f.eflags], f.cs);
    DropLast(b1.(cs := Low16(f.cs)), s + [f.eflags], f.cs);
    var b2 := b1.(cs := Low16(f.cs), stack := s + [f.eflags]);
    DropLast(b2, s, f.eflags);
    DropLast(b2.(eflags := f.eflags), s, f.eflags);
  }

  /** Whatever the handler does to registers and frame, the interrupted code resumes with exactly what
      the frame then holds, all four data segments taken from its one DS word, and its own stack. */
  lemma {:induction false} ResumesFromFrame(c: Cpu, vector: u32, g: Gate, h: Effect)
    ensures Resumed(c, vector, g, h) == Restored(c, h.frame)
  {
    hide AtCall, Run, PopAll;
    var f := h.frame;
    var p, a := IrqEpilogue(), AfterCall(c, vector, g, h);
    FrameReplaced(c, vector, g, h);
    ReachesCall(c, vector, g);
    var s5 := c.stack + [f.eflags] + [f.cs] + [f.eip] + [f.errCode] + [f.intNo];
    var s13 := s5 + [f.eax] + [f.ecx] + [f.edx] + [f.ebx] + [f.esp] + [f.ebp] + [f.esi] + [f.edi];
    RunToPopa(p, a, s13, f.ds, h.slot);
    var d := Run(p, a, 6);
    PopAllLaid(d, s5, f);
    RunToIret(p, a, d, c.stack, f);
  }

  /** An interrupt whose handler leaves the frame alone is invisible to the interrupted code exactly when
      that code ran with DS, ES, FS and GS equal: the stub saves DS only. */
  lemma {:induction false} TransparentIff(c: Cpu, vector: u32, g: Gate, h: Effect)
    requires h.frame == Saved(c, vector)
    ensures Resumed(c, vector, g, h) == c <==> c.es == c.ds && c.fs == c.ds && c.gs == c.ds
  {
    hide Resumed;
    ResumesFromFrame(c, vector, g, h);
    assert Low16(h.frame.ds) == c.ds && Low16(h.frame.cs) == c.cs;
  }

  // ---------------------------------------------------------------- exceptions

  /** The vectors for which the processor itself pushes an error code (Intel SDM volume 3, table 6-1). */
  predicate PushesCode(v: u32) { v == 8 || 10 <= v <= 14 || v == 17 || v == 21 }

  /** The vectors built with macro ISR_ERR; the others use ISR_NOERR, which pushes a zero. */
  predicate StubExpectsCode(v: u32) { v == 8 || 10 <= v <= 14 }

  function IsrEntry(v: u32): seq<Instr> {
    if StubExpectsCode(v) then [Cli, PushByte(v), Jmp] else [Cli, PushByte(0), PushByte(v), Jmp]
  }

  /** An exception stub reaches `isr_common_stub` with the stack that `cpu_state_t` describes for every
      vector below 32 but 17 and 21: there the pushed zero displaces what the processor saved. */
  lemma {:induction false} ExceptionFrameIff(c: Cpu, v: u32, g: Gate, code: u32)
    requires v < 32
    ensures var p := IsrEntry(v);
      Run(p, Deliver(c, g, if PushesCode(v) then Some(code) else None), |p|).stack
        == c.stack + [c.eflags] + [c.cs] + [c.eip] + [if PushesCode(v) then code else 0] + [v]
      <==> v != 17 && v != 21
  {
    var p := IsrEntry(v);
    var d := Deliver(c, g, if PushesCode(v) then Some(code) else None);
    Unfold(p, d, 1); Unfold(p, d, 2); Unfold(p, d, 3);
    if !StubExpectsCode(v) { Unfold(p, d, 4); }
  }
}
