/** When the tick takes the processor away (kernel/sched/process.c). */
module Preemption {
  import opened Options
  import opened RunQueues

  /** `n` ticks */
  ghost function Ticks(s: Sched, n: nat): (s': Sched)
    requires Safe(s)
    ensures Safe(s')
  {
    if n == 0 then s
    else
      var before := Ticks(s, n - 1);
      StepKeepsSafe(before, TickOp);
      Tick(before)
  }

  /** Thread `t` is current and has `slice` ticks left. */
  ghost predicate HasSlice(s: Sched, t: nat, slice: nat) {
    s.current == Some(t) && InTable(s, t) && s.threads[t].timeSlice == slice < WORD
  }

  /** A tick within the slice, and a tick on a slice of 0, which wraps: the thread goes on. */
  lemma TickWithinSlice(s: Sched, t: nat, slice: nat)
    requires Safe(s) && HasSlice(s, t, slice) && slice != 1
    ensures HasSlice(Tick(s), t, if slice == 0 then WORD - 1 else slice - 1)
    ensures Tick(s).queues == s.queues
  {
    assert (slice + WORD - 1) % WORD == if slice == 0 then WORD - 1 else slice - 1;
  }

  /** The last tick of the slice: another thread gets the processor exactly if one is ready. */
  lemma LastTick(s: Sched, t: nat)
    requires Safe(s) && HasSlice(s, t, 1)
    ensures Tick(s).current != Some(t) <==> exists p | 0 <= p < LEVELS :: s.queues[p] != []
    ensures Tick(s).current == Some(t) ==> HasSlice(Tick(s), t, 0) && Tick(s).queues == s.queues
  {
    assert (1 + WORD - 1) % WORD == 0;
    var best := BestFrom(s.queues, 0);
    TickedIsSafe(s);
    if best < LEVELS {
      assert s.queues[best][0] in s.queues[best];
      assert Queueable(s, best, s.queues[best][0]);
    }
  }

  lemma {:induction false} TicksWithinSlice(s: Sched, t: nat, slice: nat, n: nat)
    requires Safe(s) && HasSlice(s, t, slice) && n < slice
    ensures HasSlice(Ticks(s, n), t, slice - n) && Ticks(s, n).queues == s.queues
    decreases n
  {
    if n > 0 {
      var before := Ticks(s, n - 1);
      TicksWithinSlice(s, t, slice, n - 1);
      TickWithinSlice(before, t, slice - (n - 1));
      assert Ticks(s, n) == Tick(before);
    }
  }

  /** A tick within the slice adds one to the thread's processor time, in 64 bits, and counts no switch. */
  lemma TickCounts(s: Sched, t: nat, slice: nat)
    requires Safe(s) && HasSlice(s, t, slice) && slice != 1
    ensures Tick(s).switches == s.switches && InTable(Tick(s), t)
    ensures Tick(s).threads[t].cpuTime == (s.threads[t].cpuTime + 1) % 0x1_0000_0000_0000_0000
  {
    assert (slice + WORD - 1) % WORD != 0;
  }

  /** The current thread runs for its whole slice and is preempted when that ends, if another thread is ready then.
  Otherwise it goes on with a slice of 0, which the next tick wraps to 2^64 - 1. */
  lemma SliceEnds(s: Sched, t: nat, slice: nat)
    requires Safe(s) && HasSlice(s, t, slice) && slice > 0
    ensures forall n | 0 <= n < slice :: Ticks(s, n).current == Some(t)
    ensures Ticks(s, slice).current != Some(t) <==> exists p | 0 <= p < LEVELS :: s.queues[p] != []
    ensures Ticks(s, slice).current == Some(t) ==>
              HasSlice(Ticks(s, slice), t, 0) && HasSlice(Ticks(s, slice + 1), t, 0xFFFF_FFFF_FFFF_FFFF)
  {
    forall n | 0 <= n < slice ensures Ticks(s, n).current == Some(t) { TicksWithinSlice(s, t, slice, n); }
    var last := Ticks(s, slice - 1);
    TicksWithinSlice(s, t, slice, slice - 1);
    LastTick(last, t);
    var after := Ticks(s, slice);
    assert after == Tick(last);
    if after.current == Some(t) { TickWithinSlice(after, t, 0); }
  }

  /** A thread that a yield has chosen runs for ten ticks, and is preempted at the tenth exactly if another is ready
  then. */
  lemma TenTicks(s: Sched)
    requires Safe(s) && exists p | 0 <= p < LEVELS :: s.queues[p] != []
    ensures BestFrom(s.queues, 0) < LEVELS && InTable(s, Chosen(s))
    ensures var s' := Step(s, YieldOp);
            && Safe(s') && s'.current == Some(Chosen(s))
            && (forall n | 0 <= n < 10 :: Ticks(s', n).current == Some(Chosen(s)))
            && (Ticks(s', 10).current != Some(Chosen(s)) <==> exists p | 0 <= p < LEVELS :: s'.queues[p] != [])
  {
    BestIsSafe(s);
    StepKeepsSafe(s, YieldOp);
    StartedKeepsSafe(s);
    SliceEnds(Step(s, YieldOp), Chosen(s), 10);
  }
}
