/** What a not-present fault does to memory (kernel/mm/mm.c:134-153), and what it means for frames to be private. */
module PageFaults {
  import opened PageBitmap
  import opened HardwareWalk
  import opened PageTree
  import opened Mappings

  /** An allocated page that holds no table. */
  ghost predicate IsFrame(mem: Memory, root: nat, used: set<nat>, f: nat) {
    f < |mem| && f in used && !IsTable(mem, root, f)
  }

  ghost predicate Distinct(flat: map<nat, Word>) {
    forall v, w | v in flat && w in flat :: Target(flat[v]) == Target(flat[w]) ==> v == w
  }

  /** Each mapped frame is an allocated page that holds no table, and no two pages share one. */
  ghost predicate Private(mem: Memory, root: nat, used: set<nat>) {
    && (forall v | v in Flat(mem, root) :: IsFrame(mem, root, used, Target(Flat(mem, root)[v])))
    && Distinct(Flat(mem, root))
  }

  /** The page has the entry that it was given when the kernel started. */
  predicate Kept(flat: map<nat, Word>, boot: map<nat, Word>, v: nat) {
    v in flat && v in boot && flat[v] == boot[v]
  }

  /** The page has been mapped since the kernel started. */
  predicate Demand(flat: map<nat, Word>, boot: map<nat, Word>, v: nat) {
    v in flat && !Kept(flat, boot, v)
  }

  /** As `Private`, among the pages mapped since the kernel started. */
  ghost predicate DemandPrivate(mem: Memory, root: nat, used: set<nat>, boot: map<nat, Word>) {
    var flat := Flat(mem, root);
    && (forall v | Demand(flat, boot, v) :: IsFrame(mem, root, used, Target(flat[v])))
    && (forall v, w | Demand(flat, boot, v) && Demand(flat, boot, w) :: Target(flat[v]) == Target(flat[w]) ==> v == w)
  }

  /** Another page is mapped to the same frame. */
  ghost predicate Shared(flat: map<nat, Word>, v: nat)
    requires v in flat
  {
    exists w :: w in flat && w != v && Target(flat[w]) == Target(flat[v])
  }

  /** The fault has taken the first free page `n` and cleared it; no table, mapping or missing count has changed. */
  ghost predicate TookFrame(s: Snapshot, s1: Snapshot, root: nat, vpn: nat, n: nat)
    requires vpn < VPN_LIMIT
  {
    && 0 < s.free && n == FirstFree(s.used, 0, |s.mem|) < |s.mem| <= MAX_PAGES
    && s1 == Snapshot(s.mem[n := ZeroFrame()], s.used + {n}, s.free - 1)
    && Tree(s1.mem, root, s1.used) && Flat(s1.mem, root) == Flat(s.mem, root)
    && (forall t: nat :: IsTable(s1.mem, root, t) == IsTable(s.mem, root, t)) && !IsTable(s1.mem, root, n)
    && Missing(s1.mem, root, LeafPath(vpn).up) == Missing(s.mem, root, LeafPath(vpn).up)
  }

  /** Outcome of a not-present fault while a page is free: a zeroed fresh frame is mapped at the page, or memory runs
  out while building the tables. No other mapping and no word of an allocated frame changes. */
  ghost predicate FaultsIn(s: Snapshot, s': Snapshot, root: nat, vpn: nat)
    requires vpn < VPN_LIMIT
  {
    var n := FirstFree(s.used, 0, |s.mem|);
    && Tree(s'.mem, root, s'.used) && (Compact(s) ==> Compact(s'))
    && |s'.mem| == |s.mem| <= MAX_PAGES && s.used <= s'.used && 0 < s.free && n < |s.mem|
    && MapsFrame(s, s', root, vpn, n)
    && KeepsFrames(s, s', root, n)
  }

  /** The fresh frame `n` becomes the page's, if there is a page for it and for each missing table. */
  ghost predicate MapsFrame(s: Snapshot, s': Snapshot, root: nat, vpn: nat, n: nat)
    requires vpn < VPN_LIMIT && n < |s.mem| <= MAX_PAGES
  {
    var missing := Missing(s.mem, root, LeafPath(vpn).up);
    if s.free <= missing then Flat(s'.mem, root) == Flat(s.mem, root) && s'.free == 0
    else
      && Flat(s'.mem, root) == Flat(s.mem, root)[vpn := 4096 * n + TABLE_FLAGS]
      && s'.free == s.free - 1 - missing
  }

  /** Allocated pages that hold no table keep their contents and still hold no table; page `n` joins them, zeroed. */
  ghost predicate KeepsFrames(s: Snapshot, s': Snapshot, root: nat, n: nat) {
    && IsFrame(s'.mem, root, s'.used, n) && s'.mem[n] == ZeroFrame()
    && SameFrames(s.mem, s.used, s'.mem, s'.used, root)
  }

  ghost predicate SameFrames(mem: Memory, used: set<nat>, mem': Memory, used': set<nat>, root: nat) {
    forall f: nat | IsFrame(mem, root, used, f) :: IsFrame(mem', root, used', f) && mem'[f] == mem[f]
  }

  predicate Faulted(faults: seq<(Word, Word)>, v: nat) {
    exists i :: 0 <= i < |faults| && VpnOf(faults[i].1) == v
  }

  /** What a run of faults may do: map pages that faulted, and put pages of memory to use. */
  ghost predicate AfterFaults(s: Snapshot, s': Snapshot, root: nat, faults: seq<(Word, Word)>) {
    && |s'.mem| == |s.mem| && s'.free <= s.free && s.used <= s'.used && (Compact(s) ==> Compact(s'))
    && (faults != [] ==> 0 < s.free)
    && SameFrames(s.mem, s.used, s'.mem, s'.used, root)
    && SameBut(Flat(s.mem, root), Flat(s'.mem, root), faults)
  }

  ghost predicate SameBut(flat: map<nat, Word>, flat': map<nat, Word>, faults: seq<(Word, Word)>) {
    && (forall v: nat | v in flat' :: v in flat || Faulted(faults, v))
    && (forall v: nat | v in flat :: v in flat' && (flat'[v] == flat[v] || Faulted(faults, v)))
  }
}
