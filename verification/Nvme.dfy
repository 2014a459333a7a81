/** An I/O queue pair between the driver and the controller (drivers/nvme.c). */
module Nvme {
  import opened Arithmetic
  import opened PhaseRing

  const TIMEOUT: nat := 1000000

  datatype Opcode = Write | Read

  /** `cdw0` holds the opcode. */
  datatype Command = Command(cdw0: nat, nsid: nat, prp1: nat, prp2: nat, cdw10: nat, cdw11: nat, cdw12: nat)

  /** The submission ring holds the last lap of the commands. */
  ghost predicate SubmissionsHeld(sq: seq<Command>, submitted: seq<Command>) {
    |sq| == RING && forall k | 0 <= k < |submitted| <= k + RING :: sq[Slot(k)] == submitted[k]
  }

  lemma SubmitKeepsRing(sq: seq<Command>, submitted: seq<Command>, command: Command)
    requires SubmissionsHeld(sq, submitted)
    ensures SubmissionsHeld(sq[Slot(|submitted|) := command], submitted + [command])
  {
    var n, sq' := |submitted|, sq[Slot(|submitted|) := command];
    forall k | 0 <= k < n + 1 <= k + RING ensures sq'[Slot(k)] == (submitted + [command])[k] {
      if k < n { SlotsDiffer(k, n); }
    }
  }

  /** The last of the first `n` commands that went to the slot of command `k` */
  function LatestInSlot(k: nat, n: nat): nat
    requires k < n
  {
    k + (n - 1 - k) / RING * RING
  }

  lemma LatestIs(k: nat, n: nat)
    requires k < n
    ensures var latest := LatestInSlot(k, n);
            && k <= latest < n <= latest + RING && Slot(latest) == Slot(k) && (latest == k <==> n <= k + RING)
  {
    var laps := (n - 1 - k) / RING;
    DivModUnique(k + laps * RING, RING, k / RING + laps, k % RING);
  }

  /** What the controller finds in the slot of command `k` after `n` submissions is the last command written there: that
  command itself exactly if fewer than 64 came after it. The driver never checks for room. */
  lemma FetchedCommand(sq: seq<Command>, submitted: seq<Command>, k: nat)
    requires SubmissionsHeld(sq, submitted) && k < |submitted|
    ensures var latest := LatestInSlot(k, |submitted|);
            && latest < |submitted| && sq[Slot(k)] == submitted[latest]
            && (latest == k <==> |submitted| - 1 - k < 64)
    ensures (forall i, j | 0 <= i < j < |submitted| :: submitted[i] != submitted[j]) ==>
              (sq[Slot(k)] == submitted[k] <==> |submitted| - 1 - k < 64)
  {
    LatestIs(k, |submitted|);
  }

  /** The 32-bit words of a transfer command */
  function Transfer(opcode: Opcode, nsid: nat, lba: nat, count: nat, buf: nat): Command {
    Command(if opcode == Read then 2 else 1, nsid, buf, if count > 8 then (buf + 4096) % 0x1_0000_0000_0000_0000 else 0,
            lba % 0x1_0000_0000, lba / 0x1_0000_0000, (count + 0xFFFF_FFFF) % 0x1_0000_0000)
  }

  /** The two address words carry the whole block address, the count word the count less one, and the first word the
  opcode of the NVM command set, 2 for a read and 1 for a write. */
  lemma TransferCarriesAddress(opcode: Opcode, nsid: nat, lba: nat, count: nat, buf: nat)
    requires lba < 0x1_0000_0000_0000_0000 && count < 0x1_0000_0000
    ensures var c := Transfer(opcode, nsid, lba, count, buf);
            && c.cdw10 < 0x1_0000_0000 && c.cdw11 < 0x1_0000_0000 && 0x1_0000_0000 * c.cdw11 + c.cdw10 == lba
            && (c.cdw12 + 1) % 0x1_0000_0000 == count
            && c.nsid == nsid && c.cdw0 == match opcode case Read => 2 case Write => 1
  {
  }

  /** The address that the controller uses for byte `k` of a transfer within two pages (section 4.3 of the NVM Express
  Base Specification, revision 1.4): the first pointer serves up to the end of its page, the second from there on. */
  function Target(c: Command, k: nat): nat {
    var first := 4096 - c.prp1 % 4096;
    if k < first then c.prp1 + k else c.prp2 + (k - first)
  }

  /** For up to 16 blocks of 512 bytes the two pointers lead through the buffer, byte by byte, exactly if the buffer
  starts on a page or does not reach the next one. */
  lemma PointersFollowBuffer(opcode: Opcode, nsid: nat, lba: nat, count: nat, buf: nat)
    requires 0 < count <= 16 && buf + 512 * count <= 0x1_0000_0000_0000_0000
    ensures var c := Transfer(opcode, nsid, lba, count, buf);
            (forall k: nat | k < 512 * count :: Target(c, k) == buf + k) <==>
              buf % 4096 == 0 || buf % 4096 + 512 * count <= 4096
  {
    var c, first := Transfer(opcode, nsid, lba, count, buf), 4096 - buf % 4096;
    if forall k: nat | k < 512 * count :: Target(c, k) == buf + k {
      if first < 512 * count { assert Target(c, first) == buf + first; }
    }
  }

  /** The most completions the controller may have posted: one for each command, and at most a full ring unconsumed. */
  function RoomFor(submitted: seq<Command>, consumed: nat): nat {
    if |submitted| < consumed + RING then |submitted| else consumed + RING
  }

  /** A completion arrives in time for one of the tests of the polling loop, the last of which does not count. */
  ghost predicate Answered(posted: seq<nat>, room: nat, script: seq<seq<nat>>, consumed: nat) {
    exists k | 0 < k <= 1000000 :: |Arrived(posted, room, script, k)| > consumed
  }

  /** The loop made this many tests, none but the last of which found a completion, and the controller has posted what
  the script lets arrive by then. */
  ghost predicate TestedUntil(posted: seq<nat>, room: nat, script: seq<seq<nat>>, consumed: nat, tests: nat,
                              posted': seq<nat>) {
    && 0 < tests <= TIMEOUT + 1 && posted' == Arrived(posted, room, script, tests)
    && forall k | 0 < k < tests :: |Arrived(posted, room, script, k)| <= consumed
  }

  /** Driver and controller share the rings. The fields from `submitted` on are the controller's own state and the
  history of the run. */
  class QueuePair {
    const sq: array<Command>
    const cq: array<nat>
    var sqTail: nat
    var cqHead: nat
    var phase: nat
    var sqDoorbell: nat
    var cqDoorbell: nat
    var submitted: seq<Command>
    var posted: seq<nat>
    var consumed: nat
    ghost var outcomes: seq<bool>

    ghost predicate Valid()
      reads this, sq, cq
    {
      && Waiting()
      && |outcomes| == |submitted| && consumed == Successes(outcomes)
    }

    /** While a call waits its own outcome is still open. */
    ghost predicate Waiting()
      reads this, sq, cq
    {
      && sq.Length == cq.Length == RING
      && SubmissionsHeld(sq[..], submitted) && RingHolds(cq[..], posted)
      && sqTail == sqDoorbell == Slot(|submitted|)
      && cqHead == cqDoorbell == Slot(consumed) && phase == Phase(consumed)
      && consumed <= |posted| <= consumed + RING && |posted| <= |submitted|
    }

    /** The queue pair as `nvme_init` leaves it */
    constructor Init()
      ensures fresh(sq) && fresh(cq) && sq.Length == cq.Length == 64
      ensures Valid() && submitted == [] && posted == [] && outcomes == []
    {
      sq := new Command[RING](i => Command(0, 0, 0, 0, 0, 0, 0));
      cq := new nat[RING](i => 0);
      sqTail, cqHead, phase, sqDoorbell, cqDoorbell := 0, 0, 1, 0, 0;
      submitted, posted, consumed, outcomes := [], [], 0, [];
    }

    /** The first half of `nvme_read` and `nvme_write` */
    method Submit(opcode: Opcode, nsid: nat, lba: nat, count: nat, buf: nat)
      requires Waiting()
      modifies `sqTail, `sqDoorbell, `submitted, sq
      ensures Waiting() && submitted == old(submitted) + [Transfer(opcode, nsid, lba, count, buf)]
    {
      var command := Command(if opcode == Read then 2 else 1, nsid, buf, 0, 0, 0, 0);
      if count > 8 {
        command := command.(prp2 := (buf + 4096) % 0x1_0000_0000_0000_0000);
      }
      command := command.(cdw10 := lba % 0x1_0000_0000, cdw11 := lba / 0x1_0000_0000);
      command := command.(cdw12 := (count + 0xFFFF_FFFF) % 0x1_0000_0000);
      SubmitKeepsRing(sq[..], submitted, command);
      HeadAdvances(|submitted|);
      sq[sqTail] := command;
      sqTail := (sqTail + 1) % RING;
      submitted := submitted + [command];
      sqDoorbell := sqTail;
    }

    /** Take the completion at the head of the ring. */
    method Consume() returns (status: nat)
      requires Waiting() && consumed < |posted|
      modifies `cqHead, `phase, `cqDoorbell, `consumed
      ensures Waiting() && consumed == old(consumed) + 1 && status == posted[old(consumed)]
    {
      TestIsExact(cq[..], posted, consumed);
      HeadAdvances(consumed);
      status := cq[cqHead] / 2;
      cqHead := (cqHead + 1) % RING;
      if cqHead == 0 { phase := 1 - phase; }
      consumed := consumed + 1;
      cqDoorbell := cqHead;
    }

    // ---- The controller

    function Room(): nat
      reads this
    {
      RoomFor(submitted, consumed)
    }

    /** The controller posts the completion of its next command, in order and never beyond a full ring. */
    method Post(status: nat)
      requires Waiting()
      modifies `posted, cq
      ensures Waiting() && posted == if |old(posted)| < Room() then old(posted) + [status] else old(posted)
    {
      if |posted| < Room() {
        PostKeepsRing(cq[..], posted, status);
        cq[|posted| % RING] := 2 * status + (1 - |posted| / RING % 2);
        posted := posted + [status];
      }
    }

    method PostAll(statuses: seq<nat>)
      requires Waiting()
      modifies `posted, cq
      ensures Waiting() && posted == Accepted(old(posted), Room(), statuses)
    {
      var i := 0;
      while i < |statuses|
        invariant i <= |statuses| && Waiting()
        invariant Accepted(posted, Room(), statuses[i..]) == Accepted(old(posted), Room(), statuses)
      {
        assert statuses[i..][1..] == statuses[i + 1..];
        Post(statuses[i]);
        i := i + 1;
      }
    }

    // ---- A call

    /** The polling loop. Before test `k` the controller tries to post the statuses in `script[k]`; the loop ends with
    the first test that finds a completion, or with timeout 0. */
    method Wait(script: seq<seq<nat>>, ghost room: nat) returns (timeout: nat)
      requires Waiting() && room == Room()
      modifies `posted, cq
      ensures Waiting() && timeout <= TIMEOUT && posted == Arrived(old(posted), room, script, TIMEOUT - timeout + 1)
      ensures forall k | 0 < k <= TIMEOUT - timeout :: |Arrived(old(posted), room, script, k)| <= consumed
      ensures timeout > 0 ==> consumed < |posted|
    {
      timeout := TIMEOUT;
      while true
        invariant Waiting() && room == Room() && timeout <= TIMEOUT
        invariant posted == Arrived(old(posted), room, script, TIMEOUT - timeout)
        invariant forall k | 0 < k <= TIMEOUT - timeout :: |Arrived(old(posted), room, script, k)| <= consumed
        decreases timeout
      {
        var k := TIMEOUT - timeout;
        PostAll(if k < |script| then script[k] else []);
        TestIsExact(cq[..], posted, consumed);
        if !(cq[cqHead] % 2 != phase && timeout > 0) { break; }
        timeout := timeout - 1;
      }
    }

    /** The second half of `nvme_read` and `nvme_write`: wait, and take a completion unless the time is up. */
    method Complete(script: seq<seq<nat>>) returns (result: nat, ghost success: bool, ghost tests: nat)
      requires Waiting()
      modifies `posted, cq, `cqHead, `phase, `cqDoorbell, `consumed
      ensures Waiting() && consumed == old(consumed) + if success then 1 else 0
      ensures success <==> Answered(old(posted), old(Room()), script, old(consumed))
      ensures TestedUntil(old(posted), old(Room()), script, old(consumed), tests, posted)
      ensures if success
              then old(consumed) < |posted| && result == if posted[old(consumed)] == 0 then 1 else 0
              else result == 0
    {
      ghost var before, room := posted, Room();
      var timeout := Wait(script, room);
      success, tests := timeout > 0, TIMEOUT - timeout + 1;
      assert success ==> |Arrived(before, room, script, tests)| > consumed;
      result := 0;
      if timeout != 0 {
        var status := Consume();
        result := if status == 0 then 1 else 0;
      }
    }

    /** `nvme_read` and `nvme_write`. The call succeeds exactly if a completion is there by the last test before the
    timeout. It then reports the status of completion `taken`, which is the one of its own command exactly if no call
    before it timed out. */
    method Execute(opcode: Opcode, nsid: nat, lba: nat, count: nat, buf: nat, script: seq<seq<nat>>)
      returns (result: nat, ghost taken: nat, ghost tests: nat)
      requires Valid()
      modifies this, sq, cq
      ensures Valid() && submitted == old(submitted) + [Transfer(opcode, nsid, lba, count, buf)]
      ensures |outcomes| == |old(outcomes)| + 1 && old(outcomes) == outcomes[..|old(outcomes)|]
      ensures outcomes[|old(outcomes)|] <==>
              Answered(old(posted), RoomFor(submitted, old(consumed)), script, old(consumed))
      ensures TestedUntil(old(posted), RoomFor(submitted, old(consumed)), script, old(consumed), tests, posted)
      ensures taken == old(consumed) == Successes(old(outcomes))
      ensures if outcomes[|old(outcomes)|]
              then taken < |posted| && result == if posted[taken] == 0 then 1 else 0
              else result == 0 && consumed == old(consumed)
      ensures taken == |old(submitted)| <==> forall i | 0 <= i < |old(outcomes)| :: old(outcomes)[i]
    {
      OwnCompletion(outcomes);
      taken := consumed;
      Submit(opcode, nsid, lba, count, buf);
      ghost var success;
      result, success, tests := Complete(script);
      assert (outcomes + [success])[..|outcomes|] == outcomes;
      outcomes := outcomes + [success];
    }
  }

  /** A completion that comes after its command's timeout answers the next command: here the second call reports the
  status `first`, whatever becomes of its own command. */
  method LateCompletion(first: nat, second: nat) returns (result: nat, late: nat)
    ensures result == 0 && late == if first == 0 then 1 else 0
  {
    var queue := new QueuePair.Init();
    ghost var taken, tests;
    NothingArrives([], 1, TIMEOUT + 1);
    result, taken, tests := queue.Execute(Read, 1, 0, 1, 0, []);
    BothArrive(first, second);
    late, taken, tests := queue.Execute(Read, 1, 8, 1, 4096, [[first, second]]);
  }

  lemma {:induction false} NothingArrives(posted: seq<nat>, room: nat, n: nat)
    ensures forall k | 0 <= k <= n :: Arrived(posted, room, [], k) == posted
  {
    if n > 0 { NothingArrives(posted, room, n - 1); }
  }

  lemma BothArrive(first: nat, second: nat)
    ensures Arrived([], 2, [[first, second]], 1) == [first, second]
  {
    var none: seq<nat> := [];
    calc {
      Accepted(none, 2, [first, second]);
    == { assert none + [first] == [first] && [first, second][1..] == [second]; }
      Accepted([first], 2, [second]);
    == { assert [first] + [second] == [first, second] && [second][1..] == []; }
      Accepted([first, second], 2, []);
    }
    assert Arrived([], 2, [[first, second]], 0) == none;
  }
}
