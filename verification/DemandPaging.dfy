/** Runs of not-present faults (kernel/mm/mm.c:134-153): which frames they map, and which pages come to share one. */
module DemandPaging {
  import opened AccessRights
  import opened Options
  import opened PageBitmap
  import opened HardwareWalk
  import opened IdentityMap
  import opened PageTree
  import opened Mappings
  import opened PageFaults

  /** Seen from an empty map, all mapped frames are demand-paged ones. */
  lemma PrivateIsDemandPrivate(mem: Memory, root: nat, used: set<nat>)
    ensures Private(mem, root, used) <==> DemandPrivate(mem, root, used, map[])
  {
    assert forall v :: v in Flat(mem, root) <==> Demand(Flat(mem, root), map[], v);
  }

  /** Demand-paged frames stay private over a fault on any page. */
  lemma FaultKeepsPrivate(s: Snapshot, s': Snapshot, root: nat, vpn: nat, boot: map<nat, Word>)
    requires vpn < VPN_LIMIT && DemandPrivate(s.mem, root, s.used, boot) && FaultsIn(s, s', root, vpn)
    ensures DemandPrivate(s'.mem, root, s'.used, boot)
    ensures SameFrames(s.mem, s.used, s'.mem, s'.used, root)
  {
    var n := FirstFree(s.used, 0, |s.mem|);
    var flat, flat' := Flat(s.mem, root), Flat(s'.mem, root);
    FreshTarget(s, s', root, vpn, n);
    forall v | Demand(flat', boot, v)
      ensures IsFrame(s'.mem, root, s'.used, Target(flat'[v]))
      ensures Target(flat'[v]) == n || (Demand(flat, boot, v) && flat'[v] == flat[v])
    {
      assert flat' == flat || v == vpn || Demand(flat, boot, v);
    }
    forall v, w | Demand(flat', boot, v) && Demand(flat', boot, w) && Target(flat'[v]) == Target(flat'[w])
      ensures v == w
    {
      assert flat' != flat && Target(flat'[v]) == n ==> v == vpn;
    }
  }

  /** The frame that a fault maps was mapped nowhere as a demand-paged one. */
  lemma FreshTarget(s: Snapshot, s': Snapshot, root: nat, vpn: nat, n: nat)
    requires vpn < VPN_LIMIT && n == FirstFree(s.used, 0, |s.mem|) < |s.mem| <= MAX_PAGES
    requires MapsFrame(s, s', root, vpn, n)
    ensures n !in s.used
    ensures Target(4096 * n + TABLE_FLAGS) == n
    ensures Flat(s'.mem, root) == Flat(s.mem, root) ||
            Flat(s'.mem, root) == Flat(s.mem, root)[vpn := 4096 * n + TABLE_FLAGS]
  {
    LinkWord(n);
  }

  /** Every page of the map stands for the frame of its own number. */
  predicate Identity(boot: map<nat, Word>) {
    forall v | v in boot :: Target(boot[v]) == v
  }

  /** Whether a fault makes two pages share a frame can be told before it: exactly if the frame that comes next is still
  identity-mapped at another page. */
  lemma FaultSharesExactly(s: Snapshot, s': Snapshot, root: nat, vpn: nat, boot: map<nat, Word>)
    requires vpn < VPN_LIMIT && DemandPrivate(s.mem, root, s.used, boot) && Identity(boot)
    requires FaultsIn(s, s', root, vpn) && Missing(s.mem, root, LeafPath(vpn).up) < s.free
    ensures vpn in Flat(s'.mem, root) && Target(Flat(s'.mem, root)[vpn]) == FirstFree(s.used, 0, |s.mem|)
    ensures var n := FirstFree(s.used, 0, |s.mem|);
            Shared(Flat(s'.mem, root), vpn) <==> n != vpn && Kept(Flat(s.mem, root), boot, n)
  {
    var n := FirstFree(s.used, 0, |s.mem|);
    FaultMaps(s, s', root, vpn);
    DemandInUse(s, root, boot, n);
    SharesExactly(Flat(s.mem, root), Flat(s'.mem, root), boot, vpn, n);
  }

  lemma FaultMaps(s: Snapshot, s': Snapshot, root: nat, vpn: nat)
    requires vpn < VPN_LIMIT && FaultsIn(s, s', root, vpn) && Missing(s.mem, root, LeafPath(vpn).up) < s.free
    ensures vpn in Flat(s'.mem, root) && Target(Flat(s'.mem, root)[vpn]) == FirstFree(s.used, 0, |s.mem|)
    ensures Flat(s'.mem, root) == Flat(s.mem, root)[vpn := Flat(s'.mem, root)[vpn]]
    ensures FirstFree(s.used, 0, |s.mem|) !in s.used
  {
    FreshTarget(s, s', root, vpn, FirstFree(s.used, 0, |s.mem|));
  }

  lemma DemandInUse(s: Snapshot, root: nat, boot: map<nat, Word>, n: nat)
    requires DemandPrivate(s.mem, root, s.used, boot) && n !in s.used
    ensures forall v: nat | Demand(Flat(s.mem, root), boot, v) :: Target(Flat(s.mem, root)[v]) != n
  {
  }

  lemma SharesExactly(flat: map<nat, Word>, flat': map<nat, Word>, boot: map<nat, Word>, vpn: nat, n: nat)
    requires vpn in flat' && flat' == flat[vpn := flat'[vpn]] && Target(flat'[vpn]) == n
    requires Identity(boot) && forall v: nat | Demand(flat, boot, v) :: Target(flat[v]) != n
    ensures Shared(flat', vpn) <==> n != vpn && Kept(flat, boot, n)
  {
    forall w: nat | w in flat && w != vpn ensures Target(flat[w]) == n <==> w == n && Kept(flat, boot, n) {
      assert Demand(flat, boot, w) || Kept(flat, boot, w);
    }
    if n != vpn && Kept(flat, boot, n) { assert n in flat' && Target(flat'[n]) == Target(flat'[vpn]); }
  }

  /** As long as demand-paged frames are private, two pages share a frame exactly if one of those frames is that of a
  page still identity-mapped. */
  lemma DistinctExactly(mem: Memory, root: nat, used: set<nat>, boot: map<nat, Word>)
    requires DemandPrivate(mem, root, used, boot) && Identity(boot)
    ensures var flat := Flat(mem, root);
            Distinct(flat) <==> forall v | Demand(flat, boot, v) :: !Kept(flat, boot, Target(flat[v]))
  {
    var flat := Flat(mem, root);
    assert forall v: nat | v in flat :: Demand(flat, boot, v) || (Kept(flat, boot, v) && Target(flat[v]) == v);
    if v: nat :| Demand(flat, boot, v) && Kept(flat, boot, Target(flat[v])) {
      assert Target(flat[Target(flat[v])]) == Target(flat[v]) && Target(flat[v]) != v;
    }
  }

  lemma InitFlatIsIdentity(steps: nat)
    requires steps <= 2048
    ensures Identity(InitFlat(steps))
  {
    forall v: nat | v in InitFlat(steps) ensures Target(InitFlat(steps)[v]) == v { EntryOfStep(v); }
  }

  lemma EntryOfStep(v: nat)
    requires v < 0x10_0000
    ensures 4096 * v + 3 < 0x1_0000_0000_0000_0000 && Target(4096 * v + 3) == v
  {
  }

  /** What the identity map of `mm_init` maps, apart from page 0, are tables and free pages. */
  lemma IdentityMapIsPrivateExactly(mem: Memory, root: nat, used: set<nat>, steps: nat)
    requires steps <= 2048 && Tree(mem, root, used) && OnlyTables(mem, root, used) && |mem| > 0 && 0 in used
    requires Flat(mem, root) == InitFlat(steps)
    ensures Private(mem, root, used) <==> steps <= 1
  {
    InitFlatIsIdentity(steps);
    FewSteps(steps);
    if steps <= 1 {
      assert !IsTable(mem, root, 0);
    } else {
      assert Target(InitFlat(steps)[512]) == 512;
    }
  }

  lemma FewSteps(steps: nat)
    requires steps <= 2048
    ensures steps <= 1 ==> forall v: nat | v in InitFlat(steps) :: v == 0
    ensures steps >= 2 ==> 512 in InitFlat(steps)
  {
  }

  /** `a & ~0xFFF` lies in the same page. */
  function PageBase(a: Word): (base: Word)
    ensures VpnOf(base) == VpnOf(a)
  {
    assert (a - a % 4096) / 4096 == a / 4096;
    a - a % 4096
  }

  /** Taking a frame for the faulting page moves no table and no mapping. */
  lemma TakeFrame(s: Snapshot, root: nat, n: nat, vpn: nat)
    requires Tree(s.mem, root, s.used) && vpn < VPN_LIMIT && 0 < s.free
    requires n == FirstFree(s.used, 0, |s.mem|) < |s.mem| <= MAX_PAGES
    ensures TookFrame(s, Snapshot(s.mem[n := ZeroFrame()], s.used + {n}, s.free - 1), root, vpn, n)
  {
    ClearKeepsTree(s.mem, root, s.used, n);
    SameMissing(s.mem, s.mem[n := ZeroFrame()], root, LeafPath(vpn).up);
  }

  /** After the frame has been taken, mapping it completes the fault. */
  lemma FaultStep(s: Snapshot, s1: Snapshot, s': Snapshot, root: nat, vpn: nat, n: nat, r: int)
    requires vpn < VPN_LIMIT && TookFrame(s, s1, root, vpn, n)
    requires MapsPage(s1, s', root, vpn, 4096 * n + TABLE_FLAGS, r)
    ensures FaultsIn(s, s', root, vpn)
  {
    TakingKeepsCompact(s, s1);
    FrameMapped(s, s1, s', root, vpn, n, r);
    FramesKept(s, s1, s', root, vpn, n, r);
  }

  lemma FrameMapped(s: Snapshot, s1: Snapshot, s': Snapshot, root: nat, vpn: nat, n: nat, r: int)
    requires vpn < VPN_LIMIT && TookFrame(s, s1, root, vpn, n)
    requires MapsPage(s1, s', root, vpn, 4096 * n + TABLE_FLAGS, r)
    ensures MapsFrame(s, s', root, vpn, n)
  {
    LinkWord(n);
  }

  lemma FramesKept(s: Snapshot, s1: Snapshot, s': Snapshot, root: nat, vpn: nat, n: nat, r: int)
    requires vpn < VPN_LIMIT && TookFrame(s, s1, root, vpn, n)
    requires MapsPage(s1, s', root, vpn, 4096 * n + TABLE_FLAGS, r)
    ensures KeepsFrames(s, s', root, n)
  {
    assert s1.mem[n] == ZeroFrame();
  }

  lemma OneMoreFault(s0: Snapshot, s: Snapshot, s': Snapshot, root: nat, faults: seq<(Word, Word)>, fault: (Word, Word))
    requires AfterFaults(s0, s, root, faults) && FaultsIn(s, s', root, VpnOf(fault.1))
    ensures AfterFaults(s0, s', root, faults + [fault])
  {
    var n := FirstFree(s.used, 0, |s.mem|);
    FreshTarget(s, s', root, VpnOf(fault.1), n);
    OneMoreEntry(Flat(s0.mem, root), Flat(s.mem, root), Flat(s'.mem, root), faults, fault, 4096 * n + TABLE_FLAGS);
    SameFramesTransitive(s0, s, s', root);
  }

  lemma OneMoreEntry(flat: map<nat, Word>, flat1: map<nat, Word>, flat': map<nat, Word>, faults: seq<(Word, Word)>,
                     fault: (Word, Word), e: Word)
    requires SameBut(flat, flat1, faults) && (flat' == flat1 || flat' == flat1[VpnOf(fault.1) := e])
    ensures SameBut(flat, flat', faults + [fault])
  {
    forall v: nat | Faulted(faults, v) || v == VpnOf(fault.1) ensures Faulted(faults + [fault], v) {
      if v == VpnOf(fault.1) {
        assert (faults + [fault])[|faults|] == fault;
      } else {
        var i :| 0 <= i < |faults| && VpnOf(faults[i].1) == v;
        assert (faults + [fault])[i] == faults[i];
      }
    }
  }

  lemma SameFramesTransitive(s0: Snapshot, s: Snapshot, s': Snapshot, root: nat)
    requires SameFrames(s0.mem, s0.used, s.mem, s.used, root) && SameFrames(s.mem, s.used, s'.mem, s'.used, root)
    ensures SameFrames(s0.mem, s0.used, s'.mem, s'.used, root)
  {
  }

  /** A fault that finds a page and all the tables it needs writes an entry for the first free page, open to writes and
  to the user. */
  lemma FaultEntry(s: Snapshot, s': Snapshot, root: nat, vpn: nat)
    requires vpn < VPN_LIMIT && FaultsIn(s, s', root, vpn) && Missing(s.mem, root, LeafPath(vpn).up) < s.free
    ensures Tree(s'.mem, root, s'.used) && |s'.mem| <= MAX_FRAMES && vpn in Flat(s'.mem, root)
    ensures var e := Flat(s'.mem, root)[vpn];
            Base(e) == FirstFree(s.used, 0, |s.mem|) && WriteBit(e) && UserBit(e)
  {
    var n := FirstFree(s.used, 0, |s.mem|);
    assert Flat(s'.mem, root)[vpn] == 4096 * n + TABLE_FLAGS;
    LinkWord(n);
    LinkIsOpen(4096 * n + TABLE_FLAGS);
    FrameOfEntry(n);
  }

  /** So the faulting address can then be read and written in user mode. */
  lemma FaultAllowsUserWrites(s: Snapshot, s': Snapshot, root: nat, a: Word)
    requires FaultsIn(s, s', root, VpnOf(a)) && Missing(s.mem, root, LeafPath(VpnOf(a)).up) < s.free
    ensures AccessAt(s'.mem, root, a) == Some(Access(true, true))
  {
    FaultEntry(s, s', root, VpnOf(a));
    AccessSeesFlatMap(s'.mem, root, s'.used, a);
  }

  /** It leads to the page `n` that was taken. */
  lemma FaultTranslates(s: Snapshot, s': Snapshot, root: nat, vpn: nat, n: nat, a: Word)
    requires vpn < VPN_LIMIT && FaultsIn(s, s', root, vpn) && Missing(s.mem, root, LeafPath(vpn).up) < s.free
    requires n == FirstFree(s.used, 0, |s.mem|) && VpnOf(a) == vpn
    ensures Walk(s'.mem, root, a) == Some(4096 * n + a % 4096)
  {
    FaultEntry(s, s', root, vpn);
    WalkToFrame(s'.mem, root, s'.used, a, n);
  }

  lemma FrameOfEntry(n: nat)
    requires n < MAX_FRAMES
    ensures Base(4096 * n + TABLE_FLAGS) == n
  {
    LinkWord(n);
  }
}
