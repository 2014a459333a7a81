/** What the mapping loop of `mm_init` builds (kernel/mm/mm.c:33-36): one 4 KB page for every step of 2 MB. */
module IdentityMap {
  import opened HardwareWalk
  import opened PageTree

  /** Pages that mapping the first `k` steps of 2 MB takes: one level-3 table, a level-2 table for every 512 steps and a
  level-1 table for every step. */
  function InitCost(k: nat): nat {
    if k == 0 then 0 else 1 + ((k - 1) / 512 + 1) + k
  }

  /** As many of the 2048 steps as the pages allow. */
  predicate BuiltSteps(steps: nat, avail: nat) {
    steps <= 2048 && InitCost(steps) <= avail && (steps < 2048 ==> avail < InitCost(steps + 1))
  }

  /** The entry that step `k` writes: the step's own frame, present and writable. */
  function StepEntry(k: nat): Word
    requires k < 2048
  {
    4096 * (512 * k) + 3
  }

  /** The identity map that `mm_init` has built after `k` steps: one page of 4 KB in every 2 MB. */
  ghost function InitFlat(k: nat): map<nat, Word>
    requires k <= 2048
  {
    map v: nat | v < 512 * k && v % 512 == 0 :: 4096 * v + 3
  }

  /** All pages in use above the first megabyte hold tables. */
  ghost predicate OnlyTables(mem: Memory, root: nat, used: set<nat>) {
    forall n: nat | n in used && n >= 256 :: IsTable(mem, root, n)
  }

  /** The paths to tables after `k` steps. */
  predicate InitPath(k: nat, q: Path) {
    match q
    case Root => true
    case Step(Root, a) => a == 0 && k > 0
    case Step(Step(Root, a), b) => a == 0 && 0 <= b && 512 * b < k
    case Step(Step(Step(Root, a), b), c) => a == 0 && 0 <= b && 0 <= c < 512 && 512 * b + c < k
    case _ => false
  }

  function StepPath(k: nat): Path { Step(Step(Step(Root, 0), k / 512), k % 512) }

  lemma InitPathNext(k: nat, q: Path)
    requires k < 2048 && InRange(q, 3)
    ensures InitPath(k + 1, q) <==> InitPath(k, q) || OnWay(q, StepPath(k))
  {
    var p := StepPath(k);
    assert OnWay(q, p) <==> q == p || OnWay(q, p.up);
    assert OnWay(q, p.up) <==> q == p.up || OnWay(q, p.up.up);
    assert OnWay(q, p.up.up) <==> q == p.up.up || q == Root;
    match q
    case Root =>
    case Step(Root, a) =>
    case Step(Step(Root, a), b) =>
    case Step(Step(Step(Root, a), b), c) =>
    case Step(Step(Step(Step(r, a), b), c), d) =>
      TooLong(r, a, b, c, d);
  }

  lemma TooLong(r: Path, a: int, b: int, c: int, d: int)
    ensures !InRange(Step(Step(Step(Step(r, a), b), c), d), 3)
  {
    assert !InRange(Step(r, a), 0);
    assert !InRange(Step(Step(r, a), b), 1);
    assert !InRange(Step(Step(Step(r, a), b), c), 2);
  }

  lemma StepOfAddress(k: nat)
    requires k < 2048
    ensures VpnOf(0x20_0000 * k) == 512 * k && LeafPath(512 * k) == Step(StepPath(k), 0)
  {
    assert 0x20_0000 * k / 4096 == 512 * k;
    assert 512 * k / 512 == k && 512 * k / 0x4_0000 == k / 512 && 512 * k / 0x800_0000 == 0;
  }

  lemma InitCostNext(k: nat)
    ensures InitCost(k + 1) == InitCost(k) + 1 + (if k % 512 == 0 then 1 else 0) + (if k == 0 then 1 else 0)
  {
  }

  /** Which paths to its own table a step finds built by the earlier ones. */
  lemma InitPathsOfStep(k: nat)
    ensures !InitPath(k, StepPath(k))
    ensures InitPath(k, StepPath(k).up) <==> k % 512 != 0
    ensures InitPath(k, StepPath(k).up.up) <==> k > 0
  {
  }

  lemma InitFlatNext(k: nat)
    requires k < 2048
    ensures 4096 * (512 * k) + 3 < 0x1_0000_0000_0000_0000 && Present(4096 * (512 * k) + 3)
    ensures InitFlat(k + 1) == InitFlat(k)[512 * k := 4096 * (512 * k) + 3]
  {
    LeafOfStep(512 * k);
    forall v: nat ensures (v < 512 * (k + 1) && v % 512 == 0) <==> ((v < 512 * k && v % 512 == 0) || v == 512 * k) {
      NextMultiple(v, k);
    }
  }

  lemma LeafOfStep(frame: nat)
    requires frame < 0x10_0000
    ensures 4096 * frame + 3 < 0x1_0000_0000_0000_0000 && Present(4096 * frame + 3)
  {
    assert 4096 * frame + 3 == 2 * (2048 * frame + 1) + 1;
  }

  lemma NextMultiple(v: nat, k: nat)
    ensures (v < 512 * (k + 1) && v % 512 == 0) <==> ((v < 512 * k && v % 512 == 0) || v == 512 * k)
  {
  }
}
