/** The completion ring of an NVMe queue pair and its phase bit (drivers/nvme.c; section 4.6 of the NVM Express Base
Specification, revision 1.4). Completion number `k` goes to slot `Slot(k)` with phase bit `Phase(k)`. */
module PhaseRing {
  import opened Arithmetic

  const RING: nat := 64

  function Slot(k: nat): (i: nat)
    ensures i < RING
  {
    k % RING
  }

  /** 1 on the first pass through the ring, then alternating */
  function Phase(k: nat): (p: nat)
    ensures p == 0 || p == 1
  {
    1 - k / RING % 2
  }

  /** The status word of a completion: the phase bit below the status code */
  function StatusWord(status: nat, k: nat): nat {
    2 * status + Phase(k)
  }

  lemma NextLap(k: nat)
    ensures Slot(k + RING) == Slot(k) && Phase(k + RING) == 1 - Phase(k)
    ensures k < RING ==> Slot(k) == k && Phase(k) == 1
  {
    DivModUnique(k + RING, RING, k / RING + 1, k % RING);
  }

  lemma SlotsDiffer(j: nat, k: nat)
    requires j < k < j + RING
    ensures Slot(j) != Slot(k)
  {
    SameRemainder(j, k, RING);
    var laps := k / RING - j / RING;
    assert Slot(j) == Slot(k) ==> k - j == RING * laps;
  }

  /** The head moves to the next slot, and the expected phase flips when it returns to slot 0. */
  lemma HeadAdvances(k: nat)
    ensures Slot(k + 1) == (Slot(k) + 1) % RING
    ensures Phase(k + 1) == if Slot(k + 1) == 0 then 1 - Phase(k) else Phase(k)
  {
    var q, r := k / RING, k % RING;
    if r + 1 == RING { DivModUnique(k + 1, RING, q + 1, 0); } else { DivModUnique(k + 1, RING, q, r + 1); }
  }

  /** Slot `Slot(k)` still holds completion `k`. */
  ghost predicate Holds(cq: seq<nat>, posted: seq<nat>, k: nat)
    requires |cq| == RING && k < |posted|
  {
    cq[Slot(k)] == StatusWord(posted[k], k)
  }

  /** The ring after the controller has posted these statuses in order: the last lap of them, and cleared memory in
  slots never written. */
  ghost predicate RingHolds(cq: seq<nat>, posted: seq<nat>) {
    && |cq| == RING
    && (forall k | 0 <= k < |posted| <= k + RING :: Holds(cq, posted, k))
    && (forall i | |posted| <= i < RING :: cq[i] == 0)
  }

  lemma PostKeepsRing(cq: seq<nat>, posted: seq<nat>, status: nat)
    requires RingHolds(cq, posted)
    ensures RingHolds(cq[Slot(|posted|) := StatusWord(status, |posted|)], posted + [status])
  {
    var n := |posted|;
    var cq', posted' := cq[Slot(n) := StatusWord(status, n)], posted + [status];
    forall k | 0 <= k < n + 1 <= k + RING ensures Holds(cq', posted', k) {
      if k < n {
        SlotsDiffer(k, n);
        assert Holds(cq, posted, k);
      }
    }
    if n < RING { NextLap(n); }
  }

  /** The host's test, whatever has happened so far: the phase bit at the head is the expected one exactly if the next
  unconsumed completion has been posted; the status read there is then its status. */
  lemma TestIsExact(cq: seq<nat>, posted: seq<nat>, consumed: nat)
    requires RingHolds(cq, posted) && consumed <= |posted| <= consumed + RING
    ensures cq[Slot(consumed)] % 2 == Phase(consumed) <==> consumed < |posted|
    ensures consumed < |posted| ==> cq[Slot(consumed)] / 2 == posted[consumed]
  {
    if consumed < |posted| {
      assert Holds(cq, posted, consumed);
    } else if consumed >= RING {
      NextLap(consumed - RING);
      assert Holds(cq, posted, consumed - RING);
    } else {
      NextLap(consumed);
    }
  }

  /** Why the controller must not overrun: one completion beyond a full ring replaces the next unconsumed one, and the
  host then sees nothing although 65 completions are waiting. */
  lemma OverrunHidesCompletions(cq: seq<nat>, posted: seq<nat>, consumed: nat)
    requires RingHolds(cq, posted) && |posted| == consumed + 65
    ensures cq[Slot(consumed)] % 2 != Phase(consumed)
  {
    NextLap(consumed);
    assert Holds(cq, posted, consumed + RING);
  }

  // ---- The controller's side of a wait

  /** What the controller has posted after trying these statuses: it stops at `room`. */
  function Accepted(posted: seq<nat>, room: nat, statuses: seq<nat>): seq<nat>
    decreases |statuses|
  {
    if statuses == [] then posted
    else Accepted(if |posted| < room then posted + [statuses[0]] else posted, room, statuses[1..])
  }

  /** What it has posted after the first `k` entries of a script, one entry for each test of the host */
  function Arrived(posted: seq<nat>, room: nat, script: seq<seq<nat>>, k: nat): seq<nat> {
    if k == 0 then posted
    else Accepted(Arrived(posted, room, script, k - 1), room, if k - 1 < |script| then script[k - 1] else [])
  }

  // ---- Which command a call hears about

  /** Calls that ended without a timeout */
  function Successes(outcomes: seq<bool>): (n: nat)
    ensures n <= |outcomes|
  {
    if outcomes == [] then 0
    else Successes(outcomes[..|outcomes| - 1]) + if outcomes[|outcomes| - 1] then 1 else 0
  }

  /** A call that succeeds takes the completion of the command whose number is the number of successes before it: its
  own command exactly if no call before it timed out. */
  lemma {:induction false} OwnCompletion(before: seq<bool>)
    ensures Successes(before) == |before| <==> forall i | 0 <= i < |before| :: before[i]
  {
    if before != [] {
      var rest := before[..|before| - 1];
      OwnCompletion(rest);
      assert forall i | 0 <= i < |rest| :: rest[i] == before[i];
    }
  }
}
