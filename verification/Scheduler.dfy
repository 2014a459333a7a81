/** The scheduler over linked queues of threads (kernel/sched/process.c:121-194, 297-313). */
module Scheduler {
  import opened Options
  import opened RunQueues

  const MAX_PROCESSES: nat := 1024
  const MAX_THREADS: nat := 8192
  const NULL: int := -1

  /** Pointer to element `i` of a queue, null past the end. */
  function Pointer(q: seq<nat>, i: nat): int
    requires i <= |q|
  {
    if i == |q| then NULL else q[i]
  }

  /** From `head` the links lead through exactly the threads of the queue. */
  ghost predicate Linked(next: seq<int>, head: int, q: seq<nat>) {
    && head == Pointer(q, 0)
    && forall i | 0 <= i < |q| :: q[i] < |next| && next[q[i]] == Pointer(q, i + 1)
  }

  lemma AppendLinked(next: seq<int>, head: int, q: seq<nat>, t: nat)
    requires Linked(next, head, q) && t < |next| && t !in q && (forall i, j | 0 <= i < j < |q| :: q[i] != q[j])
    ensures q == [] ==> Linked(next[t := NULL], t, q + [t])
    ensures q != [] ==> q[|q| - 1] < |next| && Linked(next[q[|q| - 1] := t][t := NULL], head, q + [t])
  {
    if q != [] {
      var next', q' := next[q[|q| - 1] := t][t := NULL], q + [t];
      forall i | 0 <= i < |q'| ensures next'[q'[i]] == Pointer(q', i + 1) {
        if i < |q| - 1 { assert q[i] != q[|q| - 1] && q[i] != t; }
      }
    }
  }

  /** Linking the thread at place `i` behind the last one instead ends the queue at that place: its own link is cleared
  last. */
  lemma CutLinked(next: seq<int>, head: int, q: seq<nat>, i: nat)
    requires Linked(next, head, q) && i < |q| && forall j, k | 0 <= j < k < |q| :: q[j] != q[k]
    ensures q[|q| - 1] < |next| && q[i] < |next|
    ensures Linked(next[q[|q| - 1] := q[i]][q[i] := NULL], head, q[..i + 1])
  {
    var next', q' := next[q[|q| - 1] := q[i]][q[i] := NULL], q[..i + 1];
    assert next[q[|q| - 1]] == Pointer(q, |q|);
    forall j | 0 <= j < |q'| ensures q'[j] < |next'| && next'[q'[j]] == Pointer(q', j + 1) {
      assert next[q[j]] == Pointer(q, j + 1);
      if j < i { assert q[j] != q[i] && q[j] != q[|q| - 1]; }
    }
  }

  /** Writing links of threads outside a queue leaves the queue alone. */
  lemma OtherLinked(next: seq<int>, next': seq<int>, head: int, q: seq<nat>)
    requires Linked(next, head, q) && |next'| == |next|
    requires forall t | t in q && t < |next| :: next'[t] == next[t]
    ensures Linked(next', head, q)
  {
    forall i | 0 <= i < |q| ensures next'[q[i]] == Pointer(q, i + 1) { assert q[i] in q; }
  }

  lemma TailLinked(next: seq<int>, head: int, q: seq<nat>)
    requires Linked(next, head, q) && q != [] && (forall i, j | 0 <= i < j < |q| :: q[i] != q[j])
    ensures head == q[0] && q[0] < |next| && Linked(next[q[0] := NULL], next[q[0]], q[1..])
  {
    var next', q' := next[q[0] := NULL], q[1..];
    assert Pointer(q, 1) == Pointer(q', 0);
    forall i | 0 <= i < |q'| ensures next'[q'[i]] == Pointer(q', i + 1) {
      assert q'[i] == q[i + 1] && q[0] != q[i + 1] && next[q[i + 1]] == Pointer(q, i + 2);
    }
  }

  /** All five queues are linked. */
  ghost predicate QueuesLinked(next: seq<int>, heads: seq<int>, queues: seq<seq<nat>>) {
    |heads| == |queues| == LEVELS && forall p | 0 <= p < LEVELS :: Linked(next, heads[p], queues[p])
  }

  lemma AddLinked(s: Sched, next: seq<int>, heads: seq<int>, t: nat)
    requires Safe(s) && InTable(s, t) && |next| == |s.threads| && QueuesLinked(next, heads, s.queues)
    ensures var p := Level(s.threads[t].priority);
            var q := s.queues[p];
            if q == [] then QueuesLinked(next[t := NULL], heads[p := t], Add(s, t).queues)
            else q[|q| - 1] < |next| && QueuesLinked(next[q[|q| - 1] := t][t := NULL], heads, Add(s, t).queues)
  {
    var p := Level(s.threads[t].priority);
    var q := s.queues[p];
    if t in q { CutLinked(next, heads[p], q, Place(q, t)); } else { AppendLinked(next, heads[p], q, t); }
    var next' := if q == [] then next[t := NULL] else next[q[|q| - 1] := t][t := NULL];
    forall r | 0 <= r < LEVELS && r != p ensures Linked(next', heads[r], s.queues[r]) {
      forall u | u in s.queues[r] && u < |next| ensures next'[u] == next[u] {
        assert Queueable(s, r, u);
        if q != [] && u == q[|q| - 1] { QueuesAreDisjoint(s, p, r, u); }
      }
      OtherLinked(next, next', heads[r], s.queues[r]);
    }
  }

  lemma PickLinked(s: Sched, next: seq<int>, heads: seq<int>, p: nat)
    requires Safe(s) && |next| == |s.threads| && QueuesLinked(next, heads, s.queues) && p < LEVELS && s.queues[p] != []
    ensures heads[p] == s.queues[p][0] && s.queues[p][0] < |next|
    ensures QueuesLinked(next[s.queues[p][0] := NULL], heads[p := next[s.queues[p][0]]],
                         s.queues[p := s.queues[p][1..]])
  {
    var t := s.queues[p][0];
    TailLinked(next, heads[p], s.queues[p]);
    forall r | 0 <= r < LEVELS && r != p ensures Linked(next[t := NULL], heads[r], s.queues[r]) {
      forall u | u in s.queues[r] && u < |next| ensures next[t := NULL][u] == next[u] {
        if u == t { assert u in s.queues[p]; QueuesAreDisjoint(s, p, r, u); }
      }
      OtherLinked(next, next[t := NULL], heads[r], s.queues[r]);
    }
  }

  class Scheduler {
    const threads: array<Thread>
    const next: array<int>  // the threads' link field
    const processes: array<Process>
    const readyQueues: array<int>
    var current: int
    var totalSwitches: nat
    ghost var queues: seq<seq<nat>>

    /** The state, seen as a value. */
    ghost function View(): Sched
      reads this, threads, processes
    {
      Sched(queues, if current < 0 then None else Some(current), threads[..], processes[..], totalSwitches)
    }

    ghost predicate Valid()
      reads this, threads, next, processes, readyQueues
    {
      && Shape()
      && -1 <= current
      && Safe(View())
      && QueuesLinked(next[..], readyQueues[..], queues)
    }

    ghost predicate Shape()
      reads this
    {
      && threads.Length == next.Length == MAX_THREADS && processes.Length == MAX_PROCESSES
      && readyQueues.Length == LEVELS
      && next != readyQueues
    }

    /** `scheduler_init`, on existing tables */
    constructor SchedulerInit(threads: array<Thread>, processes: array<Process>)
      requires threads.Length == MAX_THREADS && processes.Length == MAX_PROCESSES
      ensures Valid() && fresh(next) && fresh(readyQueues) && this.threads == threads && this.processes == processes
      ensures View() == Sched([[], [], [], [], []], None, threads[..], processes[..], 0)
    {
      this.threads := threads;
      this.processes := processes;
      next := new int[MAX_THREADS](i => NULL);
      readyQueues := new int[LEVELS](i => NULL);
      current := NULL;
      totalSwitches := 0;
      queues := [[], [], [], [], []];
    }

    /** `scheduler_add_thread`, of any thread, queued already or not. The scheduler stays sound exactly if it is not the
    current one. */
    method AddThread(t: nat)
      requires Valid() && InTable(View(), t)
      modifies `queues, threads, next, readyQueues
      ensures View() == Add(old(View()), t) && QueuesLinked(next[..], readyQueues[..], queues)
      ensures Valid() <==> old(View()).current != Some(t)
      ensures var n := old(threads[t].priority);
              var p := if n <= 0 then 0 else if n >= 4 then 4 else n;
              |queues| == 5 && queues[p] != [] && queues[p][|queues[p]| - 1] == t
    {
      AddIsSafeExactly(View(), t);
      LevelIs(threads[t].priority);
      EnqueuedIsLast(queues[Level(threads[t].priority)], t);
      Enqueue(t);
    }

    /** The body of `scheduler_add_thread`, also used on the thread that yields. */
    method Enqueue(t: nat)
      requires Shape() && -1 <= current && Safe(View()) && QueuesLinked(next[..], readyQueues[..], queues)
      requires InTable(View(), t)
      modifies `queues, threads, next, readyQueues
      ensures View() == Add(old(View()), t) && QueuesLinked(next[..], readyQueues[..], queues)
    {
      var priority := threads[t].priority;
      if priority < 0 { priority := 0; }
      if priority > 4 { priority := 4; }
      ghost var s := View();
      LinkLast(priority, t);
      threads[t] := threads[t].(state := Ready);
      queues := Add(s, t).queues;
      assert threads[..] == s.threads[t := s.threads[t].(state := Ready)];
    }

    /** The part of it that writes the links. */
    method LinkLast(priority: int, t: nat)
      requires Shape() && -1 <= current && Safe(View()) && QueuesLinked(next[..], readyQueues[..], queues)
      requires InTable(View(), t) && priority == Level(threads[t].priority)
      modifies next, readyQueues
      ensures QueuesLinked(next[..], readyQueues[..], Add(View(), t).queues)
    {
      ghost var links, heads := next[..], readyQueues[..];
      AddLinked(View(), links, heads, t);
      assert Linked(links, heads[priority], queues[priority]);
      if readyQueues[priority] == NULL {
        readyQueues[priority] := t;
        next[t] := NULL;
        assert readyQueues[..] == heads[priority := t] && next[..] == links[t := NULL];
      } else {
        var last := LastOf(queues[priority], readyQueues[priority]);
        next[last] := t;
        next[t] := NULL;
        assert next[..] == links[last := t][t := NULL];
      }
    }

    /** Walk a queue to its last thread. */
    method LastOf(ghost q: seq<nat>, head: int) returns (last: nat)
      requires q != [] && Linked(next[..], head, q)
      ensures last == q[|q| - 1] < next.Length
    {
      last := head;
      ghost var i := 0;
      while next[last] != NULL
        invariant i < |q| && last == q[i] && last < next.Length
        decreases |q| - i
      {
        assert next[..][q[i]] == Pointer(q, i + 1);
        last := next[last];
        i := i + 1;
        assert q[i] < |next[..]|;
      }
      assert next[..][q[i]] == Pointer(q, i + 1);
    }

    /** `scheduler_pick_next`: `NULL` exactly if nothing is ready. */
    method PickNext() returns (t: int)
      requires Valid()
      modifies `queues, next, readyQueues
      ensures Valid()
      ensures if BestFrom(old(queues), 0) == LEVELS then t == NULL && View() == old(View())
              else t == Chosen(old(View())) && View() == Picked(old(View()))
    {
      var i := 0;
      while i < LEVELS
        invariant 0 <= i <= LEVELS && BestFrom(queues, 0) == BestFrom(queues, i)
        invariant View() == old(View()) && Valid()
      {
        assert Linked(next[..], readyQueues[..][i], queues[i]);
        if readyQueues[i] != NULL {
          PickLinked(View(), next[..], readyQueues[..], i);
          PickedIsSafe(View());
          t := readyQueues[i];
          readyQueues[i] := next[t];
          next[t] := NULL;
          queues := queues[i := queues[i][1..]];
          return;
        }
        i := i + 1;
      }
      t := NULL;
    }

    /** The chosen thread, already off its queue, becomes the current one. */
    method StartThread(ghost s: Sched, chosen: nat)
      requires Shape() && YieldDefined(s) && BestFrom(s.queues, 0) < LEVELS
      requires View() == Picked(s) && chosen == Chosen(s) && QueuesLinked(next[..], readyQueues[..], queues)
      modifies `current, `totalSwitches, threads
      ensures current == chosen && View() == Started(s) && QueuesLinked(next[..], readyQueues[..], queues)
    {
      threads[chosen] := threads[chosen].(timeSlice := SLICE, state := Running);
      current := chosen;
      totalSwitches := (totalSwitches + 1) % WORD;
    }

    /** `scheduler_yield`, without the register and page-table switch */
    method YieldThread()
      requires Valid()
      modifies this, threads, next, readyQueues
      ensures Valid() && YieldDefined(old(View())) && View() == Yield(old(View()))
    {
      ghost var s := View();
      BestIsSafe(s);
      YieldKeepsSafe(s);
      var previous := current;
      var chosen := PickNext();
      if chosen == NULL { return; }
      StartedKeepsSafe(s);
      StartThread(s, chosen);
      if previous != NULL && threads[previous].state == Running {
        Enqueue(previous);
      }
    }

    /** `scheduler_tick` */
    method TickThread()
      requires Valid()
      modifies this, threads, next, readyQueues
      ensures Valid() && View() == Tick(old(View()))
    {
      if current == NULL { return; }
      ghost var s := View();
      TickedIsSafe(s);
      threads[current] := threads[current].(timeSlice := (threads[current].timeSlice + WORD - 1) % WORD);
      threads[current] := threads[current].(cpuTime := (threads[current].cpuTime + 1) % WORD);
      assert View() == Ticked(s);
      if threads[current].timeSlice == 0 { YieldThread(); }
    }

    /** `sys_exit` */
    method SysExit(code: int)
      requires Valid()
      modifies this, threads, next, readyQueues, processes
      ensures Valid() && View() == Exit(old(View()), code)
    {
      if current == NULL { return; }
      ghost var s := View();
      ExitedIsSafe(s, code);
      threads[current] := threads[current].(state := Zombie);
      var pid, i := threads[current].pid, 0;
      while i < MAX_PROCESSES && processes[i].pid != pid
        invariant i <= MAX_PROCESSES && FindProcess(processes[..], pid, 0) == FindProcess(processes[..], pid, i)
      {
        i := i + 1;
      }
      if i < MAX_PROCESSES {
        processes[i] := processes[i].(exitCode := code, state := Zombie);
      }
      assert View() == Exited(s, code);
      YieldThread();
    }
  }

  /** The precondition of `Yield` */
  ghost predicate YieldDefined(s: Sched) {
    && |s.queues| == LEVELS && (BestFrom(s.queues, 0) < LEVELS ==> InTable(s, Chosen(s)))
    && (s.current.Some? ==> InTable(s, s.current.value))
  }

  lemma PickedIsSafe(s: Sched)
    requires Safe(s) && BestFrom(s.queues, 0) < LEVELS
    ensures Safe(Picked(s))
  {
    var s', best := Picked(s), BestFrom(s.queues, 0);
    forall p, t | 0 <= p < LEVELS && t in s'.queues[p] ensures Queueable(s', p, t) {
      if p == best { TailIsLess(s.queues[p], t); }
      assert Queueable(s, p, t);
    }
  }
}
