/** The scheduler's state machine (kernel/sched/process.c): five ready queues and the running thread. */
module RunQueues {
  import opened Options

  const LEVELS: nat := 5
  const SLICE: nat := 10
  const WORD: nat := 0x1_0000_0000_0000_0000

  datatype State = Running | Ready | Blocked | Zombie | Stopped

  datatype Thread = Thread(pid: nat, priority: int, state: State, timeSlice: nat, cpuTime: nat)

  datatype Process = Process(pid: nat, state: State, exitCode: int)

  /** Threads are named by their slot in the thread table. */
  datatype Sched = Sched(queues: seq<seq<nat>>, current: Option<nat>, threads: seq<Thread>, processes: seq<Process>,
                         switches: nat)

  /** The queue for a priority: out-of-range priorities are clamped. */
  function Level(priority: int): nat {
    if priority < 0 then 0 else if priority > 4 then 4 else priority
  }

  /** A thread of priority `a` comes before one of priority `b`: smaller numbers first. Numbers below 0 count as 0, and
  numbers above 4 as 4. */
  predicate Urgent(a: int, b: int) { a < b && a < 4 && b > 0 }

  lemma LevelIs(priority: int)
    ensures priority <= 0 ==> Level(priority) == 0
    ensures 0 < priority < 4 ==> Level(priority) == priority
    ensures priority >= 4 ==> Level(priority) == 4
  {
  }

  lemma LevelsFollowNumbers(a: int, b: int)
    ensures Level(a) < Level(b) <==> Urgent(a, b)
  {
  }

  predicate InTable(s: Sched, t: nat) { t < |s.threads| }

  ghost predicate Distinct(q: seq<nat>) {
    forall i, j | 0 <= i < j < |q| :: q[i] != q[j]
  }

  ghost predicate Queueable(s: Sched, p: nat, t: nat) {
    && InTable(s, t) && s.threads[t].state == Ready && Level(s.threads[t].priority) == p && s.current != Some(t)
  }

  /** Safety: each queue is free of duplicates and holds ready threads of its level, never the current one; the current
  thread is running or has exited. */
  ghost predicate Safe(s: Sched) {
    && |s.queues| == LEVELS
    && (forall p | 0 <= p < LEVELS :: Distinct(s.queues[p]))
    && (forall p, t | 0 <= p < LEVELS && t in s.queues[p] :: Queueable(s, p, t))
    && (s.current.Some? ==> InTable(s, s.current.value) && s.threads[s.current.value].state in {Running, Zombie})
  }

  ghost predicate NotQueued(s: Sched, t: nat) {
    forall p | 0 <= p < |s.queues| :: t !in s.queues[p]
  }

  /** Different queues share no thread. */
  lemma QueuesAreDisjoint(s: Sched, p: nat, q: nat, t: nat)
    requires Safe(s) && p < LEVELS && q < LEVELS && t in s.queues[p] && t in s.queues[q]
    ensures p == q
  {
    assert Queueable(s, p, t) && Queueable(s, q, t);
  }

  // ---- Operations

  /** First place of a thread in a queue */
  function Place(q: seq<nat>, t: nat): (i: nat)
    requires t in q
    ensures i < |q| && q[i] == t
  {
    if q[0] == t then 0 else 1 + Place(q[1..], t)
  }

  /** A queue after a thread has been linked behind its last one. A thread that is already queued becomes the last, and
  the links to those behind it are gone. */
  function Enqueued(q: seq<nat>, t: nat): seq<nat> {
    if t in q then q[..Place(q, t) + 1] else q + [t]
  }

  /** `scheduler_add_thread`: to the end of the queue of its level */
  function Add(s: Sched, t: nat): Sched
    requires |s.queues| == LEVELS && InTable(s, t)
  {
    var p := Level(s.threads[t].priority);
    s.(queues := s.queues[p := Enqueued(s.queues[p], t)], threads := s.threads[t := s.threads[t].(state := Ready)])
  }

  /** First non-empty queue from `p` on, `LEVELS` if there is none. */
  function BestFrom(queues: seq<seq<nat>>, p: nat): (best: nat)
    requires |queues| == LEVELS && p <= LEVELS
    ensures p <= best <= LEVELS && (best < LEVELS ==> queues[best] != [])
    ensures forall q | p <= q < best :: queues[q] == []
    decreases LEVELS - p
  {
    if p == LEVELS || queues[p] != [] then p else BestFrom(queues, p + 1)
  }

  /** `scheduler_pick_next`: the chosen thread removed from its queue */
  function Picked(s: Sched): Sched
    requires |s.queues| == LEVELS && BestFrom(s.queues, 0) < LEVELS
  {
    var p := BestFrom(s.queues, 0);
    s.(queues := s.queues[p := s.queues[p][1..]])
  }

  function Chosen(s: Sched): nat
    requires |s.queues| == LEVELS && BestFrom(s.queues, 0) < LEVELS
  {
    s.queues[BestFrom(s.queues, 0)][0]
  }

  /** `scheduler_yield`, first half: the chosen thread starts to run. */
  function Started(s: Sched): Sched
    requires |s.queues| == LEVELS && BestFrom(s.queues, 0) < LEVELS && InTable(s, Chosen(s))
  {
    var t := Chosen(s);
    Picked(s).(current := Some(t), threads := s.threads[t := s.threads[t].(timeSlice := SLICE, state := Running)],
               switches := (s.switches + 1) % WORD)
  }

  /** `scheduler_yield`: nothing happens if no thread is ready; the old thread goes back to its queue if it still
  ran. */
  function Yield(s: Sched): Sched
    requires |s.queues| == LEVELS && (BestFrom(s.queues, 0) < LEVELS ==> InTable(s, Chosen(s)))
    requires s.current.Some? ==> InTable(s, s.current.value)
  {
    if BestFrom(s.queues, 0) == LEVELS then s
    else
      var s' := Started(s);
      match s.current
      case None => s'
      case Some(yielder) => if s'.threads[yielder].state == Running then Add(s', yielder) else s'
  }

  /** Does `scheduler_tick` use up the slice? */
  predicate Expires(s: Sched)
    requires s.current.Some? ==> InTable(s, s.current.value)
  {
    s.current.Some? && TickThread(s.threads[s.current.value]).timeSlice == 0
  }

  /** One tick on a thread's 64-bit counters */
  function TickThread(thread: Thread): Thread {
    thread.(timeSlice := (thread.timeSlice + WORD - 1) % WORD, cpuTime := (thread.cpuTime + 1) % WORD)
  }

  function Ticked(s: Sched): Sched
    requires s.current.Some? ==> InTable(s, s.current.value)
  {
    match s.current
    case None => s
    case Some(t) =>
      s.(threads := s.threads[t := TickThread(s.threads[t])])
  }

  /** `scheduler_tick` */
  function Tick(s: Sched): Sched
    requires Safe(s)
  {
    BestIsSafe(s);
    BestIsSafe(Ticked(s));
    if Expires(s) then Yield(Ticked(s)) else Ticked(s)
  }

  /** First process slot from `i` on with this pid */
  function FindProcess(processes: seq<Process>, pid: nat, i: nat): (found: nat)
    requires i <= |processes|
    ensures i <= found <= |processes| && (found < |processes| ==> processes[found].pid == pid)
    ensures forall j | i <= j < found :: processes[j].pid != pid
    decreases |processes| - i
  {
    if i == |processes| || processes[i].pid == pid then i else FindProcess(processes, pid, i + 1)
  }

  /** The current thread and its process become zombies. */
  function Exited(s: Sched, code: int): Sched
    requires s.current.Some? && InTable(s, s.current.value)
  {
    var t := s.current.value;
    var i := FindProcess(s.processes, s.threads[t].pid, 0);
    s.(threads := s.threads[t := s.threads[t].(state := Zombie)],
       processes := if i < |s.processes| then s.processes[i := s.processes[i].(exitCode := code, state := Zombie)]
                    else s.processes)
  }

  /** `sys_exit` */
  function Exit(s: Sched, code: int): Sched
    requires Safe(s)
  {
    if s.current.None? then s
    else
      ExitedIsSafe(s, code);
      BestIsSafe(Exited(s, code));
      Yield(Exited(s, code))
  }

  /** A yield counts one switch, in 64 bits, exactly if a thread is ready, and it does nothing otherwise. */
  lemma YieldCounts(s: Sched)
    requires Safe(s)
    ensures BestFrom(s.queues, 0) < LEVELS ==> InTable(s, Chosen(s))
    ensures if forall p | 0 <= p < 5 :: s.queues[p] == [] then Yield(s) == s
            else Yield(s).switches == (s.switches + 1) % 0x1_0000_0000_0000_0000
  {
    BestIsSafe(s);
    assert BestFrom(s.queues, 0) < LEVELS ==> s.queues[BestFrom(s.queues, 0)] != [];
  }

  // ---- Safety of the operations

  lemma BestIsSafe(s: Sched)
    requires |s.queues| == LEVELS && forall p, t | 0 <= p < LEVELS && t in s.queues[p] :: InTable(s, t)
    ensures BestFrom(s.queues, 0) < LEVELS ==> InTable(s, Chosen(s))
  {
    var p := BestFrom(s.queues, 0);
    if p < LEVELS { assert s.queues[p][0] in s.queues[p]; }
  }

  lemma EnqueuedIs(q: seq<nat>, t: nat)
    requires Distinct(q)
    ensures Distinct(Enqueued(q, t)) && t in Enqueued(q, t)
    ensures forall u | u != t :: u in Enqueued(q, t) <==> u in q && !Behind(q, t, u)
  {
    var q' := Enqueued(q, t);
    assert q'[|q'| - 1] == t;
    forall u | u != t && u in q && !Behind(q, t, u) ensures u in q' {
      var j :| 0 <= j < |q| && q[j] == u;
      assert q'[j] == u;
    }
  }

  lemma EnqueuedIsLast(q: seq<nat>, t: nat)
    ensures Enqueued(q, t) != [] && Enqueued(q, t)[|Enqueued(q, t)| - 1] == t
  {
  }

  /** Thread `u` comes after thread `t` in a queue. */
  ghost predicate Behind(q: seq<nat>, t: nat, u: nat) {
    t in q && exists j | Place(q, t) < j < |q| :: q[j] == u
  }

  /** Adding any thread but the current one keeps safety, whether it is queued already or not. */
  lemma AddKeepsSafe(s: Sched, t: nat)
    requires Safe(s) && InTable(s, t) && s.current != Some(t)
    ensures Safe(Add(s, t))
  {
    var s', p := Add(s, t), Level(s.threads[t].priority);
    EnqueuedIs(s.queues[p], t);
    forall q, u | 0 <= q < LEVELS && u in s'.queues[q] ensures Queueable(s', q, u) {
      if q == p && u == t {
      } else {
        assert u in s.queues[q];
        assert Queueable(s, q, u);
      }
    }
  }

  /** Adding the current thread does not: it is then queued as well. */
  lemma AddIsSafeExactly(s: Sched, t: nat)
    requires Safe(s) && InTable(s, t)
    ensures Safe(Add(s, t)) <==> s.current != Some(t)
  {
    var s', p := Add(s, t), Level(s.threads[t].priority);
    EnqueuedIs(s.queues[p], t);
    if s.current != Some(t) {
      AddKeepsSafe(s, t);
    } else {
      assert t in s'.queues[p] && !Queueable(s', p, t);
    }
  }

  /** Adding a thread twice in a row, as `kernel_main` does with the first one, is adding it once. */
  lemma AddingAgain(s: Sched, t: nat)
    requires Safe(s) && InTable(s, t)
    ensures Add(Add(s, t), t) == Add(s, t)
  {
    var p := Level(s.threads[t].priority);
    var q := s.queues[p];
    EnqueuedIs(q, t);
    var q' := Enqueued(q, t);
    assert q'[|q'| - 1] == t && Place(q', t) == |q'| - 1;
    assert Enqueued(q', t) == q';
    assert Add(s, t).queues[p := q'] == Add(s, t).queues;
  }

  lemma StartedKeepsSafe(s: Sched)
    requires Safe(s) && BestFrom(s.queues, 0) < LEVELS && InTable(s, Chosen(s))
    ensures Safe(Started(s)) && NotQueued(Started(s), Chosen(s))
    ensures s.current.Some? ==> NotQueued(Started(s), s.current.value) && Chosen(s) != s.current.value
  {
    var s', t, best := Started(s), Chosen(s), BestFrom(s.queues, 0);
    assert t in s.queues[best];
    forall p, u | 0 <= p < LEVELS && u in s'.queues[p] ensures u != t && u in s.queues[p] {
      assert Queueable(s, p, u) || p == best;
      if p == best { TailIsLess(s.queues[p], u); } else if u == t { QueuesAreDisjoint(s, p, best, t); }
    }
    forall p, u | 0 <= p < LEVELS && u in s'.queues[p] ensures Queueable(s', p, u) { assert Queueable(s, p, u); }
    if s.current.Some? { assert Queueable(s, best, t); }
  }

  lemma TailIsLess(q: seq<nat>, u: nat)
    requires Distinct(q) && q != [] && u in q[1..]
    ensures u in q && u != q[0]
  {
  }

  lemma YieldKeepsSafe(s: Sched)
    requires Safe(s) && (BestFrom(s.queues, 0) < LEVELS ==> InTable(s, Chosen(s)))
    ensures Safe(Yield(s))
  {
    if BestFrom(s.queues, 0) < LEVELS {
      StartedKeepsSafe(s);
      if s.current.Some? { AddKeepsSafe(Started(s), s.current.value); }
    }
  }

  lemma TickedIsSafe(s: Sched)
    requires Safe(s)
    ensures Safe(Ticked(s)) && (BestFrom(Ticked(s).queues, 0) < LEVELS ==> InTable(Ticked(s), Chosen(Ticked(s))))
  {
    forall p, t | 0 <= p < LEVELS && t in s.queues[p] ensures Queueable(Ticked(s), p, t) { assert Queueable(s, p, t); }
    BestIsSafe(Ticked(s));
  }

  lemma ExitedIsSafe(s: Sched, code: int)
    requires Safe(s) && s.current.Some?
    ensures Safe(Exited(s, code))
  {
    forall p, t | 0 <= p < LEVELS && t in s.queues[p] ensures Queueable(Exited(s, code), p, t) {
      assert Queueable(s, p, t);
    }
  }

  // ---- Choice

  /** While a thread is ready, the one chosen is ready, has a priority number no greater unless both are out of range on
  the same side, and is the oldest among those not less urgent: they are queued behind it. */
  lemma ChosenIsBest(s: Sched, p: nat, t: nat)
    requires Safe(s) && p < LEVELS && t in s.queues[p]
    ensures BestFrom(s.queues, 0) < LEVELS && InTable(s, Chosen(s)) && InTable(s, t)
    ensures s.threads[Chosen(s)].state == Ready
    ensures var chosen, other := s.threads[Chosen(s)].priority, s.threads[t].priority;
            && (chosen <= other || (chosen <= 0 && other <= 0) || (chosen >= 4 && other >= 4))
            && (!Urgent(chosen, other) ==> s.queues[p] == [Chosen(s)] + Picked(s).queues[p])
  {
    BestIsSafe(s);
    var best := BestFrom(s.queues, 0);
    var queue := s.queues[p];
    assert best == LEVELS ==> queue == [];
    assert Chosen(s) in s.queues[best];
    assert Queueable(s, best, Chosen(s)) && Queueable(s, p, t);
    LevelsFollowNumbers(s.threads[t].priority, s.threads[Chosen(s)].priority);
    LevelsFollowNumbers(s.threads[Chosen(s)].priority, s.threads[t].priority);
  }

  // ---- Conservation

  /** A thread that is ready in some queue, or running */
  ghost predicate Runnable(s: Sched, t: nat) {
    || (exists p :: 0 <= p < |s.queues| && t in s.queues[p])
    || (s.current == Some(t) && InTable(s, t) && s.threads[t].state == Running)
  }

  /** Adding a thread makes it runnable, loses the threads queued behind it, and no other. */
  lemma AddConserves(s: Sched, t: nat, u: nat)
    requires Safe(s) && InTable(s, t)
    ensures var q := s.queues[Level(s.threads[t].priority)];
            Runnable(Add(s, t), u) <==> u == t || (Runnable(s, u) && !Behind(q, t, u))
  {
    var s', p := Add(s, t), Level(s.threads[t].priority);
    EnqueuedIs(s.queues[p], t);
    if u == t {
      assert u in s'.queues[p];
    } else {
      if Behind(s.queues[p], t, u) {
        assert u in s.queues[p];
        OnlyInQueue(s, p, u);
      }
      forall r | 0 <= r < LEVELS
        ensures u in s'.queues[r] <==> u in s.queues[r] && !(r == p && Behind(s.queues[p], t, u))
      {
      }
    }
  }

  lemma OnlyInQueue(s: Sched, p: nat, u: nat)
    requires Safe(s) && p < LEVELS && u in s.queues[p]
    ensures s.current != Some(u) && forall r | 0 <= r < LEVELS && r != p :: u !in s.queues[r]
  {
    assert Queueable(s, p, u);
    forall r | 0 <= r < LEVELS && r != p ensures u !in s.queues[r] {
      if u in s.queues[r] { QueuesAreDisjoint(s, p, r, u); }
    }
  }

  /** So no thread is lost exactly if the thread added is not queued, or is the last of its queue. */
  lemma AddLosesNothingExactly(s: Sched, t: nat)
    requires Safe(s) && InTable(s, t)
    ensures var q := s.queues[Level(s.threads[t].priority)];
            (forall u: nat | Runnable(s, u) :: Runnable(Add(s, t), u)) <==>
            NotQueued(s, t) || (q != [] && q[|q| - 1] == t)
  {
    var p := Level(s.threads[t].priority);
    var q := s.queues[p];
    forall u: nat ensures Runnable(Add(s, t), u) <==> u == t || (Runnable(s, u) && !Behind(q, t, u)) {
      AddConserves(s, t, u);
    }
    if t in q {
      var last := q[|q| - 1];
      assert last in q;
      if last != t { assert Behind(q, t, last); }
    } else {
      assert NotQueued(s, t) by {
        forall r | 0 <= r < |s.queues| ensures t !in s.queues[r] { assert t in s.queues[r] ==> Queueable(s, r, t); }
      }
    }
  }

  /** Adding the first of two queued threads again loses the second: it stays ready, but in no queue. */
  lemma AddingLosesAThread(s: Sched, p: nat, a: nat, b: nat)
    requires Safe(s) && p < LEVELS && s.queues[p] == [a, b]
    ensures InTable(s, a) && Runnable(s, b)
    ensures Safe(Add(s, a)) && Add(s, a).queues[p] == [a] && !Runnable(Add(s, a), b)
    ensures InTable(s, b) && Add(s, a).threads[b].state == Ready
  {
    assert a in s.queues[p] && b in s.queues[p];
    assert Queueable(s, p, a) && Queueable(s, p, b);
    AddKeepsSafe(s, a);
    assert a != b && Behind([a, b], a, [a, b][1]);
    AddConserves(s, a, b);
  }

  lemma StartedConserves(s: Sched, u: nat)
    requires Safe(s) && BestFrom(s.queues, 0) < LEVELS && InTable(s, Chosen(s)) && s.current != Some(u)
    ensures Runnable(Started(s), u) <==> Runnable(s, u)
  {
    var s', best := Started(s), BestFrom(s.queues, 0);
    assert s.queues[best] == [Chosen(s)] + s'.queues[best];
    forall q | 0 <= q < LEVELS ensures u in s.queues[q] <==> u in s'.queues[q] || (q == best && u == Chosen(s)) {}
    if u == Chosen(s) { assert u in s.queues[best]; }
  }

  /** Yielding neither loses a runnable thread nor makes one. */
  lemma YieldConserves(s: Sched, u: nat)
    requires Safe(s) && (BestFrom(s.queues, 0) < LEVELS ==> InTable(s, Chosen(s)))
    ensures Runnable(Yield(s), u) <==> Runnable(s, u)
  {
    if BestFrom(s.queues, 0) < LEVELS {
      StartedKeepsSafe(s);
      if s.current.Some? {
        var yielder := s.current.value;
        if s.threads[yielder].state == Running { AddConserves(Started(s), yielder, u); }
        if u == yielder { CurrentIsNotQueued(s, u); } else { StartedConserves(s, u); }
      } else {
        StartedConserves(s, u);
      }
    }
  }

  lemma CurrentIsNotQueued(s: Sched, t: nat)
    requires Safe(s) && s.current == Some(t)
    ensures NotQueued(s, t)
  {
    forall p | 0 <= p < LEVELS ensures t !in s.queues[p] {
      assert t in s.queues[p] ==> Queueable(s, p, t);
    }
  }

  lemma TickConserves(s: Sched, u: nat)
    requires Safe(s)
    ensures Runnable(Tick(s), u) <==> Runnable(s, u)
  {
    TickedIsSafe(s);
    if Expires(s) { YieldConserves(Ticked(s), u); }
    assert Runnable(Ticked(s), u) <==> Runnable(s, u);
  }

  /** Exiting removes the current thread and no other. */
  lemma ExitConserves(s: Sched, code: int, u: nat)
    requires Safe(s)
    ensures Runnable(Exit(s, code), u) <==> Runnable(s, u) && s.current != Some(u)
  {
    if s.current.Some? {
      ExitedIsSafe(s, code);
      BestIsSafe(Exited(s, code));
      YieldConserves(Exited(s, code), u);
      if s.current == Some(u) { CurrentIsNotQueued(s, u); }
      assert Runnable(Exited(s, code), u) <==> Runnable(s, u) && s.current != Some(u);
    }
  }

  /** Exiting makes the first process with the thread's pid a zombie with the exit code, and touches no other. */
  lemma ExitMarksProcess(s: Sched, code: int, i: nat)
    requires Safe(s) && s.current.Some? && i < |s.processes|
    ensures |Exit(s, code).processes| == |s.processes|
    ensures var pid, process := s.threads[s.current.value].pid, s.processes[i];
            Exit(s, code).processes[i] ==
            if process.pid == pid && forall j | 0 <= j < i :: s.processes[j].pid != pid
            then Process(pid, Zombie, code) else process
  {
    ExitedIsSafe(s, code);
    BestIsSafe(Exited(s, code));
    assert Exit(s, code).processes == Exited(s, code).processes;
  }

  // ---- Runs

  datatype Op = AddOp(t: nat) | TickOp | YieldOp | ExitOp(code: int)

  /** Any thread but the current one may be added, queued or not; the other calls are always allowed. */
  ghost predicate Allowed(s: Sched, op: Op) {
    op.AddOp? ==> InTable(s, op.t) && s.current != Some(op.t)
  }

  ghost function Step(s: Sched, op: Op): (s': Sched)
    requires Safe(s) && Allowed(s, op)
  {
    match op
    case AddOp(t) => Add(s, t)
    case TickOp => Tick(s)
    case YieldOp => BestIsSafe(s); Yield(s)
    case ExitOp(code) => Exit(s, code)
  }

  lemma StepKeepsSafe(s: Sched, op: Op)
    requires Safe(s) && Allowed(s, op)
    ensures Safe(Step(s, op))
  {
    match op
    case AddOp(t) => AddKeepsSafe(s, t);
    case TickOp => TickedIsSafe(s); if Expires(s) { YieldKeepsSafe(Ticked(s)); }
    case YieldOp => BestIsSafe(s); YieldKeepsSafe(s);
    case ExitOp(code) =>
      if s.current.Some? {
        ExitedIsSafe(s, code);
        BestIsSafe(Exited(s, code));
        YieldKeepsSafe(Exited(s, code));
      }
  }

  ghost predicate AllowedRun(s: Sched, ops: seq<Op>)
    requires Safe(s)
    decreases |ops|
  {
    ops != [] ==> Allowed(s, ops[0]) && (StepKeepsSafe(s, ops[0]); AllowedRun(Step(s, ops[0]), ops[1..]))
  }

  /** Safety holds over every run. */
  ghost function Run(s: Sched, ops: seq<Op>): (s': Sched)
    requires Safe(s) && AllowedRun(s, ops)
    ensures Safe(s')
    decreases |ops|
  {
    if ops == [] then s else StepKeepsSafe(s, ops[0]); Run(Step(s, ops[0]), ops[1..])
  }

  /** Only adding it makes a thread runnable that was not. */
  lemma StepMakesNoneRunnable(s: Sched, op: Op, u: nat)
    requires Safe(s) && Allowed(s, op) && op != AddOp(u) && !Runnable(s, u)
    ensures !Runnable(Step(s, op), u)
  {
    match op
    case AddOp(t) => AddConserves(s, t, u);
    case TickOp => TickConserves(s, u);
    case YieldOp => BestIsSafe(s); YieldConserves(s, u);
    case ExitOp(code) => ExitConserves(s, code, u);
  }

  /** A lost thread stays lost over every run that does not add it. */
  lemma {:induction false} LostStaysLost(s: Sched, ops: seq<Op>, u: nat)
    requires Safe(s) && AllowedRun(s, ops) && AddOp(u) !in ops && !Runnable(s, u)
    ensures !Runnable(Run(s, ops), u)
    decreases |ops|
  {
    if ops != [] {
      StepKeepsSafe(s, ops[0]);
      StepMakesNoneRunnable(s, ops[0], u);
      LostStaysLost(Step(s, ops[0]), ops[1..], u);
    }
  }

  // ---- No starvation

  /** Does the step call `scheduler_yield`? */
  predicate Yields(s: Sched, op: Op)
    requires s.current.Some? ==> InTable(s, s.current.value)
  {
    match op
    case AddOp(t) => false
    case TickOp => Expires(s)
    case YieldOp => true
    case ExitOp(code) => s.current.Some?
  }

  ghost function YieldCount(s: Sched, ops: seq<Op>): nat
    requires Safe(s) && AllowedRun(s, ops)
    decreases |ops|
  {
    if ops == [] then 0
    else
      StepKeepsSafe(s, ops[0]);
      (if Yields(s, ops[0]) then 1 else 0) + YieldCount(Step(s, ops[0]), ops[1..])
  }

  /** Nothing above level `p` is queued or current. */
  ghost predicate TopLevel(s: Sched, p: nat) {
    && |s.queues| == LEVELS && p < LEVELS
    && (forall q | 0 <= q < p :: s.queues[q] == [])
    && (s.current.Some? ==> InTable(s, s.current.value) && Level(s.threads[s.current.value].priority) >= p)
  }

  ghost predicate Queued(s: Sched, t: nat) {
    exists p :: 0 <= p < |s.queues| && t in s.queues[p]
  }

  /** No thread that is ready or current is more urgent than thread `u`. */
  ghost predicate Foremost(s: Sched, u: nat) {
    && InTable(s, u)
    && forall t: nat | InTable(s, t) && (Queued(s, t) || s.current == Some(t)) ::
         !Urgent(s.threads[t].priority, s.threads[u].priority)
  }

  lemma ForemostIsTop(s: Sched, p: nat, u: nat)
    requires Safe(s) && p < LEVELS && u in s.queues[p]
    ensures Foremost(s, u) <==> TopLevel(s, p)
  {
    assert Queueable(s, p, u);
    forall t: nat | InTable(s, t)
      ensures Urgent(s.threads[t].priority, s.threads[u].priority) <==> Level(s.threads[t].priority) < p
    {
      LevelsFollowNumbers(s.threads[t].priority, s.threads[u].priority);
    }
    if Foremost(s, u) {
      forall q | 0 <= q < p ensures s.queues[q] == [] {
        if s.queues[q] != [] { AheadIsUrgent(s, q, s.queues[q][0]); }
      }
    } else {
      var t: nat :| InTable(s, t) && (Queued(s, t) || s.current == Some(t)) &&
        Urgent(s.threads[t].priority, s.threads[u].priority);
      if s.current != Some(t) {
        var q :| 0 <= q < |s.queues| && t in s.queues[q];
        assert Queueable(s, q, t);
      }
    }
  }

  lemma AheadIsUrgent(s: Sched, q: nat, t: nat)
    requires Safe(s) && q < LEVELS && t in s.queues[q]
    ensures InTable(s, t) && Queued(s, t) && Level(s.threads[t].priority) == q
  {
    assert Queueable(s, q, t);
  }

  /** The run adds no thread more urgent than `u`, and none again that is queued ahead of `u` in queue `p`. */
  ghost predicate AddsBehind(s: Sched, ops: seq<Op>, p: nat, u: nat)
    requires Safe(s) && AllowedRun(s, ops) && p < LEVELS
    decreases |ops|
  {
    ops != [] ==>
      && (ops[0].AddOp? ==>
            && InTable(s, u) && !Urgent(s.threads[ops[0].t].priority, s.threads[u].priority)
            && !Behind(s.queues[p], ops[0].t, u))
      && (StepKeepsSafe(s, ops[0]); AddsBehind(Step(s, ops[0]), ops[1..], p, u))
  }

  /** One yield moves the queue of the top level up by one. */
  lemma YieldAdvances(s: Sched, p: nat, k: nat)
    requires Safe(s) && TopLevel(s, p) && k < |s.queues[p]|
    ensures BestFrom(s.queues, 0) == p && InTable(s, Chosen(s))
    ensures TopLevel(Yield(s), p)
    ensures k == 0 ==> Yield(s).current == Some(s.queues[p][0])
    ensures k > 0 ==> k - 1 < |Yield(s).queues[p]| && Yield(s).queues[p][k - 1] == s.queues[p][k]
  {
    BestIsSafe(s);
    assert s.queues[p][0] in s.queues[p];
    assert Queueable(s, p, s.queues[p][0]);
    StartedKeepsSafe(s);
  }

  lemma PlaceKept(q: seq<nat>, t: nat, k: nat)
    requires Distinct(q) && k < |q| && !Behind(q, t, q[k])
    ensures k < |Enqueued(q, t)| && Enqueued(q, t)[k] == q[k]
  {
    if t in q { assert k <= Place(q, t); }
  }

  lemma StepAdvances(s: Sched, op: Op, p: nat, k: nat)
    requires Safe(s) && Allowed(s, op) && TopLevel(s, p) && k < |s.queues[p]|
    requires op.AddOp? ==> Level(s.threads[op.t].priority) >= p && !Behind(s.queues[p], op.t, s.queues[p][k])
    ensures TopLevel(Step(s, op), p)
    ensures var s' := Step(s, op);
            if !Yields(s, op) then k < |s'.queues[p]| && s'.queues[p][k] == s.queues[p][k]
            else if k > 0 then k - 1 < |s'.queues[p]| && s'.queues[p][k - 1] == s.queues[p][k]
            else s'.current == Some(s.queues[p][0])
  {
    match op
    case AddOp(t) => PlaceKept(s.queues[p], t, k);
    case TickOp => TickedIsSafe(s); if Expires(s) { YieldAdvances(Ticked(s), p, k); }
    case YieldOp => YieldAdvances(s, p, k);
    case ExitOp(code) =>
      if s.current.Some? {
        ExitedIsSafe(s, code);
        YieldAdvances(Exited(s, code), p, k);
      }
  }

  /** While fewer yields have happened than its position, a foremost thread has moved up by exactly one place a yield,
  however many threads have been added or put back behind it. */
  lemma {:induction false} QueueAdvances(s: Sched, ops: seq<Op>, p: nat, k: nat)
    requires Safe(s) && AllowedRun(s, ops) && p < LEVELS && k < |s.queues[p]| && Foremost(s, s.queues[p][k])
    requires AddsBehind(s, ops, p, s.queues[p][k]) && YieldCount(s, ops) <= k
    ensures var s', n := Run(s, ops), k - YieldCount(s, ops);
            n < |s'.queues[p]| && s'.queues[p][n] == s.queues[p][k] && Foremost(s', s.queues[p][k])
    decreases |ops|
  {
    if ops != [] {
      ForemostAdvances(s, ops[0], p, k);
      RestOfRun(s, ops, p, s.queues[p][k]);
      QueueAdvances(Step(s, ops[0]), ops[1..], p, if Yields(s, ops[0]) then k - 1 else k);
    }
  }

  lemma RestOfRun(s: Sched, ops: seq<Op>, p: nat, u: nat)
    requires Safe(s) && AllowedRun(s, ops) && p < LEVELS && AddsBehind(s, ops, p, u) && ops != []
    ensures var s', rest := Step(s, ops[0]), ops[1..];
            && Safe(s') && AllowedRun(s', rest) && AddsBehind(s', rest, p, u) && Run(s, ops) == Run(s', rest)
            && YieldCount(s, ops) == (if Yields(s, ops[0]) then 1 else 0) + YieldCount(s', rest)
  {
    StepKeepsSafe(s, ops[0]);
  }

  /** One step of that run */
  lemma ForemostAdvances(s: Sched, op: Op, p: nat, k: nat)
    requires Safe(s) && Allowed(s, op) && p < LEVELS && k < |s.queues[p]| && Foremost(s, s.queues[p][k])
    requires op.AddOp? ==> !Urgent(s.threads[op.t].priority, s.threads[s.queues[p][k]].priority)
    requires op.AddOp? ==> !Behind(s.queues[p], op.t, s.queues[p][k])
    ensures var s' := Step(s, op);
            var k' := if Yields(s, op) then k - 1 else k;
            && Safe(s')
            && (k' >= 0 ==> k' < |s'.queues[p]| && s'.queues[p][k'] == s.queues[p][k] && Foremost(s', s.queues[p][k]))
            && (k' < 0 ==> s'.current == Some(s.queues[p][k]))
  {
    var u := s.queues[p][k];
    assert u in s.queues[p];
    assert Queueable(s, p, u);
    if op.AddOp? { LevelsFollowNumbers(s.threads[op.t].priority, s.threads[u].priority); }
    ForemostIsTop(s, p, u);
    StepKeepsSafe(s, op);
    StepAdvances(s, op, p, k);
    var s', k' := Step(s, op), if Yields(s, op) then k - 1 else k;
    if k' >= 0 {
      assert s'.queues[p][k'] in s'.queues[p];
      ForemostIsTop(s', p, u);
    }
  }

  /** A thread at position `k` of its queue, with none ready or current that is more urgent, runs after exactly `k + 1`
  yields. */
  lemma NoStarvation(s: Sched, ops: seq<Op>, op: Op, p: nat, k: nat)
    requires Safe(s) && AllowedRun(s, ops) && p < LEVELS && k < |s.queues[p]| && Foremost(s, s.queues[p][k])
    requires AddsBehind(s, ops, p, s.queues[p][k])
    requires YieldCount(s, ops) == k && Allowed(Run(s, ops), op) && Yields(Run(s, ops), op)
    ensures Step(Run(s, ops), op).current == Some(s.queues[p][k])
  {
    QueueAdvances(s, ops, p, k);
    ForemostAdvances(Run(s, ops), op, p, 0);
  }
}
