/** Tick counting and the polling delay of timer.c. */
module Timer {
  import opened CTypes
  import opened Interrupts

  /** How many timer interrupts are served between one poll of the counter and the next. */
  type Schedule = nat -> nat

  /** The services before poll `k`. */
  function Total(arrivals: Schedule, k: nat): nat
  {
    if k == 0 then 0 else Total(arrivals, k - 1) + arrivals(k - 1)
  }

  lemma {:induction false} TotalStep(arrivals: Schedule, k: nat)
    ensures Total(arrivals, k + 1) == Total(arrivals, k) + arrivals(k) && Total(arrivals, 0) == 0
  {
  }

  /** What poll `k` reads. */
  function Reading(start: u32, arrivals: Schedule, k: nat): u32 { Wrap(start + Total(arrivals, k + 1)) }

  /** `timer_getticks() + (millis / 10)` in 32 bits. */
  function Target(start: u32, millis: u32): u32 { Wrap(start + millis / 10) }

  /** `delay` returns at poll `k`: the first whose reading is not below the target. */
  ghost predicate ReturnsAt(start: u32, millis: u32, arrivals: Schedule, k: nat) {
    && Reading(start, arrivals, k) >= Target(start, millis)
    && forall j :: 0 <= j < k ==> Reading(start, arrivals, j) < Target(start, millis)
  }

  class Counter {
    var ticks: u32

    constructor (start: u32)
      ensures ticks == start
    {
      ticks := start;
    }

    /** `timer_callback` */
    method Callback()
      modifies this
      ensures ticks == Wrap(old(ticks) + 1)
    {
      ticks := Wrap(ticks + 1);
    }

    /** The interrupt services that happen between two polls. */
    method Serve(n: nat)
      modifies this
      ensures ticks == Wrap(old(ticks) + n)
    {
      var i := 0;
      ghost var was: int := ticks;
      while i < n
        invariant i <= n && ticks == Wrap(was + i)
      {
        Callback();
        WrapAdd(was + i, 1);
        i := i + 1;
      }
    }

    /** `delay`. It terminates whenever some poll reads at least the target. */
    method Delay(millis: u32, arrivals: Schedule, ghost last: nat) returns (k: nat)
      requires Reading(ticks, arrivals, last) >= Target(ticks, millis)
      modifies this
      ensures k <= last && ReturnsAt(old(ticks), millis, arrivals, k)
      ensures ticks == Reading(old(ticks), arrivals, k)
    {
      hide Wrap, Total;
      ghost var start := ticks;
      var t := Wrap(ticks + millis / 10);
      k := 0;
      Serve(arrivals(0));
      TotalStep(arrivals, 0);
      while ticks < t
        invariant k <= last && ticks == Reading(start, arrivals, k)
        invariant forall j :: 0 <= j < k ==> Reading(start, arrivals, j) < t
        decreases last - k
      {
        Serve(arrivals(k + 1));
        TotalStep(arrivals, k + 1);
        WrapAdd(start + Total(arrivals, k + 1), arrivals(k + 1));
        k := k + 1;
      }
    }
  }

  /** The time really waited, in timer services, when `delay` returns at poll `k`. */
  function Waited(arrivals: Schedule, k: nat): nat { Total(arrivals, k + 1) }

  /** `delay` waits at least `millis/10` services under every interrupt schedule exactly when the target
      does not wrap. When it wraps, `delay` can return before a single service. */
  lemma {:induction false} DelayLongEnoughIff(start: u32, millis: u32)
    ensures (forall arrivals: Schedule, k: nat :: ReturnsAt(start, millis, arrivals, k) ==> Waited(arrivals, k) >= millis / 10)
       <==> start + millis / 10 < TWO32
  {
    if start + millis / 10 < TWO32 {
      forall arrivals: Schedule, k: nat | ReturnsAt(start, millis, arrivals, k)
        ensures Waited(arrivals, k) >= millis / 10
      {
        NotTooEarly(start, millis, arrivals, k);
      }
    } else {
      var never: Schedule := _ => 0;
      assert Total(never, 1) == Total(never, 0) + 0;
      assert ReturnsAt(start, millis, never, 0);
      assert Waited(never, 0) == 0;
    }
  }

  lemma {:induction false} NotTooEarly(start: u32, millis: u32, arrivals: Schedule, k: nat)
    requires start + millis / 10 < TWO32 && Reading(start, arrivals, k) >= Target(start, millis)
    ensures Waited(arrivals, k) >= millis / 10
  {
    WrapSmall(start + millis / 10);
    if Waited(arrivals, k) < millis / 10 { WrapSmall(start + Waited(arrivals, k)); }
  }

  // ---------------------------------------------------------------- termination

  /** At least `n` services come in the end. */
  ghost predicate Reaches(arrivals: Schedule, n: nat) { exists k: nat :: Total(arrivals, k) >= n }

  /** No more than `g` services between two polls, and services without end. */
  ghost predicate Steady(arrivals: Schedule, g: nat) {
    (forall k: nat :: arrivals(k) <= g) && forall n: nat :: Reaches(arrivals, n)
  }

  ghost predicate Returns(start: u32, millis: u32, arrivals: Schedule) {
    exists k: nat :: Reading(start, arrivals, k) >= Target(start, millis)
  }

  /** `delay` of at least one tick, with a target that does not wrap, returns under every steady schedule
      exactly when no gap between two polls can carry the counter from below the target past its
      wrap-around. */
  lemma {:induction false} DelayEndsIff(start: u32, millis: u32, g: nat)
    requires millis >= 10 && start + millis / 10 < TWO32
    ensures (forall arrivals: Schedule | Steady(arrivals, g) :: Returns(start, millis, arrivals))
       <==> g <= TWO32 - Target(start, millis)
  {
    hide Total;
    WrapSmall(start + millis / 10);
    if g <= TWO32 - Target(start, millis) {
      forall arrivals: Schedule | Steady(arrivals, g)
        ensures Returns(start, millis, arrivals)
      {
        assert Reaches(arrivals, millis / 10);
        var enough: nat :| Total(arrivals, enough) >= millis / 10;
        Grows(arrivals, enough, enough + 1);
        var k := DelayEnds(start, millis, arrivals, enough);
      }
    } else {
      var skip := Skipping(start, Target(start, millis));
      SkippingSteady(start, Target(start, millis), g);
      forall k: nat
        ensures Reading(start, skip, k) < Target(start, millis)
      {
        SkippingReads(start, Target(start, millis), k + 1);
      }
    }
  }

  /** By the poll at which enough services came it has ended, as long as no gap before was too long. */
  lemma {:induction false} DelayEnds(start: u32, millis: u32, arrivals: Schedule, enough: nat) returns (k: nat)
    requires start + millis / 10 < TWO32 && Total(arrivals, enough + 1) >= millis / 10
    requires forall j :: 0 <= j <= enough ==> arrivals(j) <= TWO32 - Target(start, millis) - (if millis >= 10 then 0 else 1)
    ensures k <= enough && Reading(start, arrivals, k) >= Target(start, millis)
  {
    WrapSmall(start + millis / 10);
    k := 0;
    while Total(arrivals, k + 1) < millis / 10
      invariant k <= enough
      invariant Total(arrivals, k) < millis / 10 || k == 0
      decreases enough - k
    {
      Grows(arrivals, k + 1, enough + 1);
      k := k + 1;
    }
    assert Total(arrivals, k + 1) == Total(arrivals, k) + arrivals(k);
    if start + Total(arrivals, k + 1) < TWO32 { WrapSmall(start + Total(arrivals, k + 1)); }
  }

  /** The counter before poll `k` of a schedule that serves once between two polls, but jumps over the wrap
      whenever the next service would reach the target. */
  function Counted(start: u32, t: u32, k: nat): (c: u32)
    requires start < t
    ensures c < t
  {
    if k == 0 then start
    else
      var c := Counted(start, t, k - 1);
      if c == t - 1 then 0 else c + 1
  }

  function Skipping(start: u32, t: u32): Schedule
    requires start < t
  {
    k => if Counted(start, t, k) == t - 1 then TWO32 - t + 1 else 1
  }

  lemma {:induction false} SkippingReads(start: u32, t: u32, k: nat)
    requires start < t
    ensures Wrap(start + Total(Skipping(start, t), k)) == Counted(start, t, k)
    ensures Total(Skipping(start, t), k) >= k
  {
    hide Wrap, Skipping;
    if k == 0 {
      WrapSmall(start);
    } else {
      var skip := Skipping(start, t);
      SkippingReads(start, t, k - 1);
      SkippingStep(start, t, k - 1);
      WrapAdd(start + Total(skip, k - 1), skip(k - 1));
    }
  }

  lemma {:induction false} SkippingStep(start: u32, t: u32, k: nat)
    requires start < t
    ensures Wrap(Counted(start, t, k) + Skipping(start, t)(k)) == Counted(start, t, k + 1)
    ensures 1 <= Skipping(start, t)(k) <= TWO32 - t + 1
  {
  }

  lemma {:induction false} SkippingSteady(start: u32, t: u32, g: nat)
    requires start < t && g >= TWO32 - t + 1
    ensures Steady(Skipping(start, t), g)
  {
    var skip := Skipping(start, t);
    forall k: nat ensures skip(k) <= g { SkippingStep(start, t, k); }
    forall n: nat
      ensures Reaches(skip, n)
    {
      SkippingReads(start, t, n);
    }
  }

  lemma {:induction false} Grows(arrivals: Schedule, j: nat, k: nat)
    requires j <= k
    ensures Total(arrivals, j) <= Total(arrivals, k)
    decreases k
  {
    if j < k { Grows(arrivals, j, k - 1); }
  }

  // ---------------------------------------------------------------- in the machine

  /** The timer interrupts served before each of the program's steps. */
  ghost function ServedSeen(events: seq<Event>, trace: seq<Sys>): seq<int>
    requires |trace| == |events| + 1
  {
    if events == [] then []
    else
      var n := |events| - 1;
      ServedSeen(events[..n], trace[..n + 1])
      + if events[n].ProgramStep? then [TimersServed(events[..n], trace[..n + 1])] else []
  }

  /** In every run, what the program reads at its `k`-th step is the first count plus the services so far,
      and these never get fewer. */
  lemma {:induction false} ReadingsInRun(prog: Prog, events: seq<Event>, trace: seq<Sys>)
    requires StaysFit(prog) && IsRun(prog, events, trace) && Inv(trace[0])
    ensures var seen, served := TicksSeen(events, trace), ServedSeen(events, trace);
      && |seen| == |served|
      && (forall k :: 0 <= k < |seen| ==> seen[k] == Wrap(trace[0].ticks + served[k]))
      && (forall k :: 0 <= k < |seen| ==> 0 <= served[k] <= TimersServed(events, trace))
      && (forall j, k :: 0 <= j < k < |seen| ==> served[j] <= served[k])
    decreases |events|
  {
    hide Inv, Next, StaysFit, Wrap, TimersServed, InFlight, TimerTaken;
    if events != [] {
      var n := |events| - 1;
      ReadingsInRun(prog, events[..n], trace[..n + 1]);
      RunTransparent(prog, events[..n], trace[..n + 1]);
      RunCounts(prog, events[..n], trace[..n + 1]);
      StepCounts(prog, events[n], trace[n], trace[n + 1]);
      ServedStep(events, trace);
    }
  }

  /** What the program reads in a run of the machine is what the polls of a schedule read: everything said
      about schedules holds of the machine. */
  lemma {:induction false} RunIsSchedule(prog: Prog, events: seq<Event>, trace: seq<Sys>) returns (arrivals: Schedule)
    requires StaysFit(prog) && IsRun(prog, events, trace) && Inv(trace[0])
    ensures var seen, served := TicksSeen(events, trace), ServedSeen(events, trace);
      && |seen| == |served|
      && forall k :: 0 <= k < |seen| ==> Reading(trace[0].ticks, arrivals, k) == seen[k] && Waited(arrivals, k) == served[k]
  {
    hide TicksSeen, ServedSeen, TimersServed, Inv, StaysFit, Next;
    ReadingsInRun(prog, events, trace);
    var seen, served := TicksSeen(events, trace), ServedSeen(events, trace);
    arrivals := Gaps(served);
    forall k | 0 <= k < |seen|
      ensures Reading(trace[0].ticks, arrivals, k) == seen[k] && Waited(arrivals, k) == served[k]
    {
      GapsAddUp(served, k);
    }
  }

  ghost predicate Grown(served: seq<int>) {
    && (forall k :: 0 <= k < |served| ==> served[k] >= 0)
    && forall j, k :: 0 <= j < k < |served| ==> served[j] <= served[k]
  }

  /** The services between reading `k` and the one before. */
  function Gap(served: seq<int>, k: nat): int
    requires k < |served|
  {
    if k == 0 then served[0] else served[k] - served[k - 1]
  }

  ghost function Gaps(served: seq<int>): Schedule
    requires Grown(served)
  {
    (k: nat) => if k >= |served| then 0 else Gap(served, k)
  }

  lemma {:induction false} GapsAddUp(served: seq<int>, k: nat)
    requires Grown(served) && k < |served|
    ensures Total(Gaps(served), k + 1) == served[k]
  {
    assert Total(Gaps(served), k + 1) == Total(Gaps(served), k) + Gaps(served)(k);
    if k > 0 { GapsAddUp(served, k - 1); }
  }

  /** A `delay` that polls at the program's steps and returns at the `k`-th has waited for at least
      `millis/10` timer interrupts served by the machine, if its target did not wrap. */
  lemma {:induction false} DelayInRun(prog: Prog, events: seq<Event>, trace: seq<Sys>, millis: u32, k: nat)
    requires StaysFit(prog) && IsRun(prog, events, trace) && Inv(trace[0])
    requires trace[0].ticks + millis / 10 < TWO32
    requires k < |TicksSeen(events, trace)| && TicksSeen(events, trace)[k] >= Target(trace[0].ticks, millis)
    ensures k < |ServedSeen(events, trace)| && ServedSeen(events, trace)[k] >= millis / 10
  {
    hide TicksSeen, ServedSeen, Inv, StaysFit, Next, Reading, Waited, Target;
    var arrivals := RunIsSchedule(prog, events, trace);
    NotTooEarly(trace[0].ticks, millis, arrivals, k);
  }

  /** And it ends in the machine: by the `k`-th reading, if that comes after `millis/10` services and no more
      than the bound of `DelayEndsIff` came between one reading and the next. */
  lemma {:induction false} DelayEndsInRun(prog: Prog, events: seq<Event>, trace: seq<Sys>, millis: u32, k: nat) returns (j: nat)
    requires StaysFit(prog) && IsRun(prog, events, trace) && Inv(trace[0])
    requires millis >= 10 && trace[0].ticks + millis / 10 < TWO32
    requires var served := ServedSeen(events, trace);
      && k < |served| && served[k] >= millis / 10
      && forall i :: 0 <= i <= k ==> Gap(served, i) <= TWO32 - Target(trace[0].ticks, millis)
    ensures j <= k < |TicksSeen(events, trace)| && TicksSeen(events, trace)[j] >= Target(trace[0].ticks, millis)
  {
    hide TicksSeen, ServedSeen, Inv, StaysFit, Next, Reading, Target;
    var served := ServedSeen(events, trace);
    var arrivals := RunIsSchedule(prog, events, trace);
    forall i | 0 <= i <= k
      ensures arrivals(i) == Gap(served, i)
    {
      assert Total(arrivals, i + 1) == Total(arrivals, i) + arrivals(i);
      assert Waited(arrivals, i) == served[i];
      if i > 0 { assert Waited(arrivals, i - 1) == served[i - 1]; }
    }
    assert Waited(arrivals, k) == served[k];
    j := DelayEnds(trace[0].ticks, millis, arrivals, k);
  }
}
