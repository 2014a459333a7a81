/** Which threads below the top level ever run while the threads above them keep yielding
(kernel/sched/process.c:147-194). */
module Starvation {
  import opened Options
  import opened RunQueues

  /** The state after `n` yields. */
  ghost function Yielded(s: Sched, n: nat): (s': Sched)
    requires Safe(s)
    ensures Safe(s')
    decreases n
  {
    if n == 0 then s else Yielded(AfterYield(s), n - 1)
  }

  ghost function AfterYield(s: Sched): (s': Sched)
    requires Safe(s)
    ensures Safe(s')
  {
    BestIsSafe(s);
    YieldKeepsSafe(s);
    Yield(s)
  }

  /** The threads above level `p` that are ready or running. */
  ghost function Above(s: Sched, p: nat): set<nat> {
    set t: nat | InTable(s, t) && t < |s.threads| && Level(s.threads[t].priority) < p && Runnable(s, t)
  }

  lemma AboveConserved(s: Sched, p: nat)
    requires Safe(s)
    ensures Above(AfterYield(s), p) == Above(s, p)
  {
    BestIsSafe(s);
    var s' := AfterYield(s);
    forall t: nat ensures Runnable(s', t) <==> Runnable(s, t) { YieldConserves(s, t); }
    SamePriorities(s);
  }

  lemma SamePriorities(s: Sched)
    requires Safe(s)
    ensures |AfterYield(s).threads| == |s.threads|
    ensures forall t: nat | InTable(s, t) :: AfterYield(s).threads[t].priority == s.threads[t].priority
  {
    BestIsSafe(s);
  }

  /** A runnable thread above level `p` is queued above it, unless it is the current one. */
  lemma AboveIsQueued(s: Sched, p: nat, t: nat)
    requires Safe(s) && t in Above(s, p) && s.current != Some(t)
    ensures BestFrom(s.queues, 0) < p
  {
    var q :| 0 <= q < |s.queues| && t in s.queues[q];
    assert Queueable(s, q, t);
  }

  /** What is chosen from above level `p` is above it. */
  lemma ChosenIsAbove(s: Sched, p: nat)
    requires Safe(s) && p < LEVELS && BestFrom(s.queues, 0) < p
    ensures InTable(s, Chosen(s)) && Chosen(s) in Above(s, p) && s.current != Some(Chosen(s))
    ensures AfterYield(s).current == Some(Chosen(s))
  {
    BestIsSafe(s);
    var best := BestFrom(s.queues, 0);
    assert Chosen(s) in s.queues[best];
    assert Queueable(s, best, Chosen(s));
  }

  /** A yield takes the chosen thread off its queue and at most adds the yielder at the end of one. */
  lemma YieldOnlyAppends(s: Sched, p: nat)
    requires Safe(s) && p < LEVELS && BestFrom(s.queues, 0) < LEVELS
    ensures Picked(s).queues[p] <= AfterYield(s).queues[p]
  {
    BestIsSafe(s);
    StartedKeepsSafe(s);
  }

  /** Threads of level `p` keep their places while something above is chosen. */
  lemma PlacesKept(s: Sched, p: nat, k: nat)
    requires Safe(s) && p < LEVELS && k < |s.queues[p]| && BestFrom(s.queues, 0) < p
    ensures k < |AfterYield(s).queues[p]| && AfterYield(s).queues[p][k] == s.queues[p][k]
    ensures AfterYield(s).current != Some(s.queues[p][k])
  {
    YieldOnlyAppends(s, p);
    assert Picked(s).queues[p] == s.queues[p];
    var s', t := AfterYield(s), s.queues[p][k];
    assert s'.queues[p][k] == t;
    assert t in s'.queues[p];
    assert Queueable(s', p, t);
  }

  /** With nothing queued above, the head of level `p` is next, and the others move up. */
  lemma PlacesAdvance(s: Sched, p: nat, k: nat)
    requires Safe(s) && p < LEVELS && k < |s.queues[p]| && BestFrom(s.queues, 0) >= p
    ensures k == 0 ==> AfterYield(s).current == Some(s.queues[p][0])
    ensures k > 0 ==> k - 1 < |AfterYield(s).queues[p]| && AfterYield(s).queues[p][k - 1] == s.queues[p][k]
  {
    assert BestFrom(s.queues, 0) == p;
    BestIsSafe(s);
    YieldOnlyAppends(s, p);
    assert Picked(s).queues[p] == s.queues[p][1..];
  }

  /** After the only thread above has been chosen, nothing above is queued. */
  lemma OneAboveIsCurrent(s: Sched, p: nat)
    requires Safe(s) && p < LEVELS && BestFrom(s.queues, 0) < p && |Above(s, p)| <= 1
    ensures BestFrom(AfterYield(s).queues, 0) >= p
  {
    ChosenIsAbove(s, p);
    AboveConserved(s, p);
    if BestFrom(AfterYield(s).queues, 0) < p {
      ChosenIsAbove(AfterYield(s), p);
      TwoElements(Above(s, p), Chosen(s), Chosen(AfterYield(s)));
      assert false;
    }
  }

  lemma TwoElements(a: set<nat>, x: nat, y: nat)
    requires x in a && y in a && x != y
    ensures |a| >= 2
  {
    assert a == {x, y} + (a - {x, y});
  }

  /** With at most one runnable thread above level `p`, what is above is chosen every other time at most, because the
  yielder is no candidate. */
  lemma {:induction false} ServedBelow(s: Sched, p: nat, k: nat) returns (n: nat)
    requires Safe(s) && p < LEVELS && k < |s.queues[p]| && |Above(s, p)| <= 1
    ensures 0 < n <= 2 * k + 2 && Yielded(s, n).current == Some(s.queues[p][k])
    decreases k, 1
  {
    if BestFrom(s.queues, 0) < p {
      OneAboveIsCurrent(s, p);
      AboveConserved(s, p);
      PlacesKept(s, p, k);
      n := ServedNext(AfterYield(s), p, k);
      n := n + 1;
    } else {
      n := ServedNext(s, p, k);
    }
  }

  lemma {:induction false} ServedNext(s: Sched, p: nat, k: nat) returns (n: nat)
    requires Safe(s) && p < LEVELS && k < |s.queues[p]| && |Above(s, p)| <= 1 && BestFrom(s.queues, 0) >= p
    ensures 0 < n <= 2 * k + 1 && Yielded(s, n).current == Some(s.queues[p][k])
    decreases k, 0
  {
    PlacesAdvance(s, p, k);
    n := 1;
    if k > 0 {
      AboveConserved(s, p);
      n := ServedBelow(AfterYield(s), p, k - 1);
      n := n + 1;
    } else {
      assert Yielded(AfterYield(s), 0) == AfterYield(s);
    }
  }

  /** With two or more, something above is always chosen. */
  lemma TwoAboveAreChosen(s: Sched, p: nat)
    requires Safe(s) && |Above(s, p)| >= 2
    ensures BestFrom(s.queues, 0) < p
  {
    var x :| x in Above(s, p);
    assert |Above(s, p) - {x}| > 0;
    var y :| y in Above(s, p) - {x};
    AboveIsQueued(s, p, if s.current == Some(x) then y else x);
  }

  /** Thread `u` stands at place `k` of level `p`, below two runnable threads or more. */
  ghost predicate Waits(s: Sched, p: nat, k: nat, u: nat) {
    Safe(s) && p < LEVELS && k < |s.queues[p]| && s.queues[p][k] == u && |Above(s, p)| >= 2
  }

  lemma StillWaits(s: Sched, p: nat, k: nat, u: nat)
    requires Waits(s, p, k, u)
    ensures Waits(AfterYield(s), p, k, u)
  {
    TwoAboveAreChosen(s, p);
    AboveConserved(s, p);
    PlacesKept(s, p, k);
  }

  lemma {:induction false} WaitsForEver(s: Sched, p: nat, k: nat, u: nat, n: nat)
    requires Waits(s, p, k, u)
    ensures Waits(Yielded(s, n), p, k, u)
    decreases n
  {
    if n > 0 {
      StillWaits(s, p, k, u);
      WaitsForEver(AfterYield(s), p, k, u, n - 1);
    }
  }

  /** The ready and running threads that are more urgent than `u` */
  ghost function MoreUrgent(s: Sched, u: nat): set<nat>
    requires InTable(s, u)
  {
    set t: nat | t < |s.threads| && Runnable(s, t) && Urgent(s.threads[t].priority, s.threads[u].priority)
  }

  lemma MoreUrgentIsAbove(s: Sched, p: nat, u: nat)
    requires Safe(s) && p < LEVELS && u in s.queues[p]
    ensures InTable(s, u) && MoreUrgent(s, u) == Above(s, p)
  {
    assert Queueable(s, p, u);
    forall t: nat | InTable(s, t) ensures t in MoreUrgent(s, u) <==> t in Above(s, p) {
      LevelsFollowNumbers(s.threads[t].priority, s.threads[u].priority);
    }
  }

  /** With at most one more urgent thread ready or running, the thread at position `k` of its queue runs within
  `2 * k + 2` yields. */
  lemma Served(s: Sched, p: nat, k: nat) returns (n: nat)
    requires Safe(s) && p < LEVELS && k < |s.queues[p]| && InTable(s, s.queues[p][k])
    requires |MoreUrgent(s, s.queues[p][k])| <= 1
    ensures 0 < n <= 2 * k + 2 && Yielded(s, n).current == Some(s.queues[p][k])
  {
    MoreUrgentIsAbove(s, p, s.queues[p][k]);
    n := ServedBelow(s, p, k);
  }

  /** With two or more it keeps its place, however many yields follow. */
  lemma Starved(s: Sched, p: nat, k: nat, n: nat)
    requires Safe(s) && p < LEVELS && k < |s.queues[p]| && InTable(s, s.queues[p][k])
    requires |MoreUrgent(s, s.queues[p][k])| >= 2
    ensures k < |Yielded(s, n).queues[p]| && Yielded(s, n).queues[p][k] == s.queues[p][k]
    ensures Yielded(s, n).current != Some(s.queues[p][k])
  {
    var u, s' := s.queues[p][k], Yielded(s, n);
    MoreUrgentIsAbove(s, p, u);
    WaitsForEver(s, p, k, u, n);
    assert u in s'.queues[p];
    assert Queueable(s', p, u);
  }

  /** A ready thread is ever reached by a run of yields if and only if at most one more urgent thread is ready or
  running. */
  lemma ServedExactly(s: Sched, p: nat, k: nat)
    requires Safe(s) && p < LEVELS && k < |s.queues[p]|
    ensures InTable(s, s.queues[p][k])
    ensures (exists n: nat :: Yielded(s, n).current == Some(s.queues[p][k])) <==>
            |MoreUrgent(s, s.queues[p][k])| <= 1
  {
    MoreUrgentIsAbove(s, p, s.queues[p][k]);
    if |MoreUrgent(s, s.queues[p][k])| <= 1 {
      var n := Served(s, p, k);
    } else {
      forall n: nat ensures Yielded(s, n).current != Some(s.queues[p][k]) { Starved(s, p, k, n); }
    }
  }

  /** Thread `a` of priority 0 or less is running, `b` is queued behind no other in the first queue and `c`, of priority
  1, in the second. */
  ghost predicate Turn(s: Sched, a: nat, b: nat, c: nat) {
    && Safe(s) && s.current == Some(a) && s.threads[a].state == Running && s.threads[a].priority <= 0
    && s.queues[0] == [b] && s.queues[1] == [c] && forall p | 2 <= p < LEVELS :: s.queues[p] == []
  }

  lemma NextTurn(s: Sched, a: nat, b: nat, c: nat)
    requires Turn(s, a, b, c)
    ensures Turn(AfterYield(s), b, a, c)
  {
    BestIsSafe(s);
    assert BestFrom(s.queues, 0) == 0 && Chosen(s) == b;
    assert b in s.queues[0];
    assert Queueable(s, 0, b);
    LevelIs(s.threads[b].priority);
    assert [b][1..] + [a] == [a];
  }

  /** Two threads of priority 0 that yield to each other keep a thread of priority 1 waiting for ever: two yields lead
  back to the same queues. */
  lemma TwoShareTheProcessor(s: Sched, a: nat, b: nat, c: nat)
    requires Turn(s, a, b, c)
    ensures InTable(s, b) && s.threads[b].priority <= 0 && InTable(s, c) && s.threads[c].priority == 1
    ensures Turn(Yielded(s, 1), b, a, c) && Turn(Yielded(s, 2), a, b, c)
    ensures forall n: nat :: Yielded(s, n).current != Some(c)
  {
    var s' := AfterYield(s);
    NextTurn(s, a, b, c);
    NextTurn(s', b, a, c);
    assert Yielded(s, 1) == Yielded(s', 0) && Yielded(s, 2) == Yielded(s', 1) == Yielded(AfterYield(s'), 0);
    assert b in s.queues[0] && c in s.queues[1];
    assert Queueable(s, 0, b) && Queueable(s, 1, c);
    LevelIs(s.threads[b].priority);
    LevelIs(s.threads[c].priority);
    TwoElements(MoreUrgent(s, c), a, b);
    forall n: nat ensures Yielded(s, n).current != Some(c) { Starved(s, 1, 0, n); }
  }
}
