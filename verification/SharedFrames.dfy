/** Demand paging over the identity map that `mm_init` leaves (kernel/mm/mm.c:12-40 and 134-153). That map covers free
pages, which the fault handler later takes for other virtual pages. */
module SharedFrames {
  import opened HardwareWalk
  import opened IdentityMap
  import opened PageTree
  import opened Mappings
  import opened PageFaults
  import opened DemandPaging
  import opened KernelMap

  /** The frames mapped at the start are private exactly if memory is too small for a second step. */
  lemma BootIsPrivateExactly(s: Snapshot, root: nat, steps: nat)
    requires Booted(s, root, steps) && Tree(s.mem, root, s.used) && 0 in s.used
    ensures Private(s.mem, root, s.used) <==> |s.mem| < 257 + InitCost(2)
  {
    IdentityMapIsPrivateExactly(s.mem, root, s.used, steps);
    if steps >= 2 { CostsGrow(2, steps); } else { CostsGrow(steps + 1, 2); }
  }

  lemma {:induction false} CostsGrow(k: nat, m: nat)
    requires k <= m
    ensures InitCost(k) <= InitCost(m)
    decreases m
  {
    if k < m {
      CostsGrow(k, m - 1);
      InitCostNext(m - 1);
    }
  }

  lemma BootIsDemandPrivate(s: Snapshot, root: nat, steps: nat)
    requires Booted(s, root, steps)
    ensures DemandPrivate(s.mem, root, s.used, InitFlat(steps))
  {
  }

  /** As long as no page of the identity map faults, that map stays as it was. */
  lemma KeptAfterBoot(s: Snapshot, s': Snapshot, root: nat, steps: nat, faults: seq<(Word, Word)>)
    requires Booted(s, root, steps) && AfterFaults(s, s', root, faults)
    requires forall v: nat | Faulted(faults, v) :: v !in InitFlat(steps)
    ensures forall v: nat :: Kept(Flat(s'.mem, root), InitFlat(steps), v) <==> v < 512 * steps && v % 512 == 0
  {
  }

  /** After any run of faults on pages outside the identity map, two pages share a frame exactly if one was given a
  frame whose number is a multiple of 512 below `512 * steps`. */
  lemma DistinctAfterBoot(s: Snapshot, s': Snapshot, root: nat, steps: nat, faults: seq<(Word, Word)>)
    requires Booted(s, root, steps) && AfterFaults(s, s', root, faults)
    requires DemandPrivate(s'.mem, root, s'.used, InitFlat(steps))
    requires forall v: nat | Faulted(faults, v) :: v !in InitFlat(steps)
    ensures Distinct(Flat(s'.mem, root)) <==> FramesOutside(Flat(s'.mem, root), steps)
  {
    var flat := Flat(s'.mem, root);
    InitFlatIsIdentity(steps);
    KeptAfterBoot(s, s', root, steps, faults);
    DistinctExactly(s'.mem, root, s'.used, InitFlat(steps));
    assert forall v: nat :: Demand(flat, InitFlat(steps), v) <==> v in flat && !(v < 512 * steps && v % 512 == 0);
  }

  /** No page outside the identity map of `steps` steps is mapped to a frame that the identity map covers. */
  ghost predicate FramesOutside(flat: map<nat, Word>, steps: nat) {
    forall v: nat | v in flat && !(v < 512 * steps && v % 512 == 0) ::
      !(Target(flat[v]) < 512 * steps && Target(flat[v]) % 512 == 0)
  }

  /** So the free count tells beforehand whether a fault will make two pages share a frame: the next page to be taken is
  the one after those in use, and it is shared exactly if it is a multiple of 512 below `512 * steps`. */
  lemma NextFaultShares(s0: Snapshot, s: Snapshot, s': Snapshot, root: nat, steps: nat, faults: seq<(Word, Word)>,
                        vpn: nat)
    requires Booted(s0, root, steps) && AfterFaults(s0, s, root, faults)
    requires DemandPrivate(s.mem, root, s.used, InitFlat(steps))
    requires forall v: nat | Faulted(faults, v) :: v !in InitFlat(steps)
    requires vpn < VPN_LIMIT && vpn !in InitFlat(steps) && FaultsIn(s, s', root, vpn)
    requires Missing(s.mem, root, LeafPath(vpn).up) < s.free
    ensures vpn in Flat(s'.mem, root)
    ensures Shared(Flat(s'.mem, root), vpn) <==> |s.mem| - s.free < 512 * steps && (|s.mem| - s.free) % 512 == 0
  {
    NextPage(s);
    InitFlatIsIdentity(steps);
    KeptAfterBoot(s0, s, root, steps, faults);
    FaultSharesExactly(s, s', root, vpn, InitFlat(steps));
  }

  /** Machines with more than 2560 pages have room for all 2048 steps, with pages left. */
  lemma AllStepsFit(s: Snapshot, root: nat, steps: nat)
    requires Booted(s, root, steps) && |s.mem| > 2560
    ensures steps == 2048 && s.free == |s.mem| - 2310
  {
    assert InitCost(2048) == 2053;
  }

  /** The table for the first 2 MB exists, page 2560 is identity-mapped, and the `i` - 1 pages taken since the start
  have been mapped one after another. */
  ghost predicate Filling(s: Snapshot, root: nat, i: nat) {
    var flat := Flat(s.mem, root);
    && Compact(s) && s.free + 2309 + i == |s.mem|
    && 0 in flat && 2560 in flat && Target(flat[2560]) == 2560
    && (i > 1 ==> i - 1 in flat && Target(flat[i - 1]) == 2308 + i)
  }

  lemma StartFilling(s: Snapshot, root: nat, steps: nat)
    requires Booted(s, root, steps) && |s.mem| > 2560
    ensures Filling(s, root, 1)
  {
    AllStepsFit(s, root, steps);
    InitFlatIsIdentity(steps);
    assert 2560 in InitFlat(2048) && 0 in InitFlat(2048);
  }

  /** A fault on page `i` of the first 2 MB takes exactly the next page of memory. */
  lemma FillNext(s: Snapshot, s': Snapshot, root: nat, i: nat)
    requires 1 <= i < 512 && Filling(s, root, i) && FaultsIn(s, s', root, i)
    ensures |s'.mem| == |s.mem| && Filling(s', root, i + 1)
  {
    FirstRegion(i);
    NothingMissing(s.mem, root, 0);
    FaultMaps(s, s', root, i);
    NextPage(s);
  }

  /** The 251st page taken is number 2560. */
  lemma FillingShares(s: Snapshot, root: nat)
    requires Filling(s, root, 252)
    ensures var flat := Flat(s.mem, root);
            251 in flat && 2560 in flat && Target(flat[251]) == 2560 == Target(flat[2560])
    ensures !Distinct(Flat(s.mem, root))
  {
  }

  lemma FirstRegion(i: nat)
    requires i < 512
    ensures VpnOf(4096 * i) == i && LeafPath(i).up == LeafPath(0).up
  {
    assert 4096 * i / 4096 == i;
  }

  /** No table is missing on the way to a mapped page. */
  lemma NothingMissing(mem: Memory, root: nat, v: nat)
    requires v in Flat(mem, root)
    ensures Missing(mem, root, LeafPath(v).up) == 0
  {
    NoneMissing(mem, root, LeafPath(v).up);
  }

  lemma {:induction false} NoneMissing(mem: Memory, root: nat, p: Path)
    requires TableAt(mem, root, p).Some?
    ensures Missing(mem, root, p) == 0
    decreases p
  {
    if p.Step? { NoneMissing(mem, root, p.up); }
  }
}
