/** The mapping loop that starts the kernel (kernel/mm/mm.c:30-37). */
module KernelMap {
  import opened AccessRights
  import opened HardwareWalk
  import opened Options
  import opened PageTree
  import opened IdentityMap
  import opened PageBitmap
  import opened Mappings

  ghost predicate OnlyRoot(mem: Memory, root: nat) {
    && Flat(mem, root) == map[]
    && forall q | InRange(q, 3) :: TableAt(mem, root, q).Some? <==> q == Root
  }

  lemma {:induction false} NothingPresent(mem: Memory, root: nat, p: Path)
    requires root < |mem| && mem[root] == ZeroFrame() && p.Step?
    ensures EntryAt(mem, root, p) == 0
    decreases p
  {
    if p.up.Step? { NothingPresent(mem, root, p.up); }
  }

  /** A cleared frame is the root of an empty tree. */
  lemma EmptyRoot(mem: Memory, root: nat, used: set<nat>)
    requires 0 < root < |mem| && mem[root] == ZeroFrame() && root in used
    ensures Tree(mem, root, used) && OnlyRoot(mem, root)
  {
    forall p: Path | p.Step? ensures EntryAt(mem, root, p) == 0 { NothingPresent(mem, root, p); }
    assert forall q :: TableAt(mem, root, q).Some? <==> q == Root;
  }

  /** An empty root table, with nothing else in use above 1 MB. */
  ghost predicate NothingMapped(s: Snapshot, root: nat) {
    Tree(s.mem, root, s.used) && OnlyRoot(s.mem, root) && OnlyTables(s.mem, root, s.used) && Compact(s)
  }

  /** The first page taken after the first megabyte has been reserved becomes that root. */
  lemma RootTaken(s: Snapshot, s': Snapshot)
    requires FirstPages(s.used, 256) && s.free == |s.mem| - 256 > 0
    requires var n := FirstFree(s.used, 0, |s.mem|);
             n < |s.mem| && s' == Snapshot(s.mem[n := ZeroFrame()], s.used + {n}, s.free - 1)
    ensures FirstFree(s.used, 0, |s.mem|) == 256 && NothingMapped(s', 256)
  {
    NextPage(s);
    EmptyRoot(s'.mem, 256, s'.used);
    assert TableAt(s'.mem, 256, Root) == Some(256);
  }

  /** What `mm_init` leaves: the identity map of as many steps as the pages above 1 MB allow, and nothing in use above
  1 MB but its tables, which lie one after another. A page is free only if all steps succeeded. */
  ghost predicate Booted(s: Snapshot, root: nat, steps: nat) {
    && 256 < |s.mem| && BuiltSteps(steps, |s.mem| - 257)
    && Flat(s.mem, root) == InitFlat(steps) && OnlyTables(s.mem, root, s.used) && Compact(s)
    && s.free == if steps == 2048 then |s.mem| - 257 - InitCost(2048) else 0
  }

  /** The state of the mapping loop after `k` steps, `steps` of which succeeded. */
  ghost predicate StepsDone(avail: nat, s: Snapshot, root: nat, k: nat, steps: nat) {
    && steps <= k <= 2048 && Tree(s.mem, root, s.used) && |s.mem| <= MAX_PAGES && Flat(s.mem, root) == InitFlat(steps)
    && OnlyTables(s.mem, root, s.used) && Compact(s)
    && (forall q | InRange(q, 3) :: TableAt(s.mem, root, q).Some? ==> InitPath(k, q))
    && (if steps == k
        then s.free == avail - InitCost(k) &&
             forall q | InRange(q, 3) :: InitPath(k, q) ==> TableAt(s.mem, root, q).Some?
        else s.free == 0 && InitCost(steps) <= avail < InitCost(steps + 1))
  }

  lemma StepsKeepTree(avail: nat, s: Snapshot, root: nat, k: nat, steps: nat)
    requires StepsDone(avail, s, root, k, steps)
    ensures Tree(s.mem, root, s.used)
  {
  }

  lemma StepsEnd(avail: nat, s: Snapshot, root: nat, steps: nat)
    requires StepsDone(avail, s, root, 2048, steps) && avail == |s.mem| - 257
    ensures Booted(s, root, steps)
  {
  }

  lemma StartSteps(s: Snapshot, root: nat)
    requires NothingMapped(s, root) && |s.mem| <= MAX_PAGES
    ensures StepsDone(s.free, s, root, 0, 0)
  {
  }

  /** Which tables step `k` finds missing while every earlier step has succeeded. */
  lemma MissingForStep(mem: Memory, root: nat, k: nat)
    requires k < 2048
    requires forall q | InRange(q, 3) :: TableAt(mem, root, q).Some? <==> InitPath(k, q)
    ensures Missing(mem, root, StepPath(k)) == InitCost(k + 1) - InitCost(k)
  {
    var p := StepPath(k);
    PathsInRange(0, k / 512, k % 512);
    InitCostNext(k);
    InitPathsOfStep(k);
    assert Missing(mem, root, p.up.up) == if k > 0 then 0 else 1;
    assert Missing(mem, root, p.up) == Missing(mem, root, p.up.up) + if k % 512 != 0 then 0 else 1;
  }

  /** After a call for step `k` the tables lie on the paths of the steps so far; after a success, all of them exist. */
  lemma StepPaths(mem: Memory, used: set<nat>, mem': Memory, used': set<nat>, root: nat, k: nat)
    requires k < 2048 && Grew(mem, used, mem', used', root, StepPath(k))
    requires forall q | InRange(q, 3) :: TableAt(mem, root, q).Some? ==> InitPath(k, q)
    ensures forall q | InRange(q, 3) :: TableAt(mem', root, q).Some? ==> InitPath(k + 1, q)
    ensures TableAt(mem', root, StepPath(k)).Some? &&
            (forall q | InRange(q, 3) :: InitPath(k, q) ==> TableAt(mem, root, q).Some?) ==>
              forall q | InRange(q, 3) :: InitPath(k + 1, q) ==> TableAt(mem', root, q).Some?
  {
    forall q | InRange(q, 3) ensures InitPath(k + 1, q) <==> InitPath(k, q) || OnWay(q, StepPath(k)) {
      InitPathNext(k, q);
    }
    if TableAt(mem', root, StepPath(k)).Some? {
      forall q | OnWay(q, StepPath(k)) ensures TableAt(mem', root, q).Some? { TablesOnWay(mem', root, q, StepPath(k)); }
    }
  }

  lemma {:induction false} TablesOnWay(mem: Memory, root: nat, q: Path, p: Path)
    requires OnWay(q, p) && TableAt(mem, root, p).Some?
    ensures TableAt(mem, root, q).Some?
    decreases p
  {
    if q != p { TablesOnWay(mem, root, q, p.up); }
  }

  lemma StepMapped(avail: nat, s: Snapshot, s': Snapshot, root: nat, k: nat, steps: nat, r: int) returns (steps': nat)
    requires k < 2048 && StepsDone(avail, s, root, k, steps)
    requires MapsPage(s, s', root, 512 * k, StepEntry(k), r)
    ensures StepsDone(avail, s', root, k + 1, steps')
  {
    var p := StepPath(k);
    assert LeafPath(512 * k).up == p by { StepOfAddress(k); }
    StepPaths(s.mem, s.used, s'.mem, s'.used, root, k);
    GrewOnlyTables(s.mem, s.used, s'.mem, s'.used, root, p);
    if steps == k {
      MissingForStep(s.mem, root, k);
      InitFlatNext(k);
    } else {
      StepFails(s, root, k);
    }
    steps' := if r == 0 then k + 1 else steps;
  }

  /** Building tables puts nothing but tables to use. */
  lemma GrewOnlyTables(mem: Memory, used: set<nat>, mem': Memory, used': set<nat>, root: nat, p: Path)
    requires Grew(mem, used, mem', used', root, p) && OnlyTables(mem, root, used)
    ensures OnlyTables(mem', root, used')
  {
  }

  lemma StepFails(s: Snapshot, root: nat, k: nat)
    requires k < 2048 && forall q | InRange(q, 3) :: TableAt(s.mem, root, q).Some? ==> InitPath(k, q)
    ensures Missing(s.mem, root, StepPath(k)) > 0
  {
    PathsInRange(0, k / 512, k % 512);
    InitPathsOfStep(k);
  }

  /** That map as the processor sees it: the first page of each 2 MB stands for itself, and nothing else is mapped. */
  lemma BootTranslates(s: Snapshot, root: nat, steps: nat, a: Word)
    requires Booted(s, root, steps) && Tree(s.mem, root, s.used) && |s.mem| <= MAX_PAGES
    ensures var v := VpnOf(a);
            Walk(s.mem, root, a) == if v % 512 == 0 && v / 512 < steps then Some(4096 * v + a % 4096) else None
  {
    var v := VpnOf(a);
    MappedAtBoot(v, steps);
    if v in InitFlat(steps) {
      BootEntry(v);
      WalkToFrame(s.mem, root, s.used, a, v);
    } else {
      WalkSeesFlatMap(s.mem, root, s.used, a);
    }
  }

  /** What is mapped allows writes of the supervisor and no access of the user. */
  lemma BootAllows(s: Snapshot, root: nat, steps: nat, a: Word)
    requires Booted(s, root, steps) && Tree(s.mem, root, s.used) && |s.mem| <= MAX_PAGES
    ensures var v := VpnOf(a);
            AccessAt(s.mem, root, a) == if v % 512 == 0 && v / 512 < steps then Some(Access(true, false)) else None
  {
    var v := VpnOf(a);
    AccessSeesFlatMap(s.mem, root, s.used, a);
    MappedAtBoot(v, steps);
    if v in InitFlat(steps) { BootEntry(v); }
  }

  lemma MappedAtBoot(v: nat, steps: nat)
    requires steps <= 2048
    ensures v in InitFlat(steps) <==> v % 512 == 0 && v / 512 < steps
    ensures v in InitFlat(steps) ==> v < 0x10_0000
  {
  }

  lemma BootEntry(v: nat)
    requires v < 0x10_0000
    ensures 4096 * v + 3 < 0x1_0000_0000_0000_0000 && Base(4096 * v + 3) == v
    ensures WriteBit(4096 * v + 3) && !UserBit(4096 * v + 3)
  {
    BitsOfSum(v, 3);
    assert (4096 * v + 3) / 4096 == v;
  }
}
