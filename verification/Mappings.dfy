/** What mapping one page does to memory (kernel/mm/mm.c:75-117). */
module Mappings {
  import opened AccessRights
  import opened Arithmetic
  import opened Bits
  import opened Options
  import opened PageTree
  import opened HardwareWalk
  import opened PageBitmap

  /** The state that mapping works on: memory, the allocated pages, and the count of free ones. */
  datatype Snapshot = Snapshot(mem: Memory, used: set<nat>, free: nat)

  /** Pages have been handed out lowest first, and none given back: those in use are the first ones of memory. */
  ghost predicate Compact(s: Snapshot) {
    s.free <= |s.mem| && FirstPages(s.used, |s.mem| - s.free)
  }

  /** The next page that a compact state hands out. */
  lemma NextPage(s: Snapshot)
    requires Compact(s) && s.free > 0
    ensures FirstFree(s.used, 0, |s.mem|) == |s.mem| - s.free
  {
    assert |s.mem| - s.free !in s.used;
  }

  lemma TakingKeepsCompact(s: Snapshot, s': Snapshot)
    requires s.free > 0 && |s'.mem| == |s.mem| && s'.free == s.free - 1
    requires s'.used == s.used + {FirstFree(s.used, 0, |s.mem|)}
    ensures Compact(s) ==> Compact(s')
  {
    if Compact(s) { NextPage(s); }
  }

  /** Outcome of making one level: nothing to do, out of memory, or one new table. */
  ghost predicate EnsuresTable(s: Snapshot, s': Snapshot, t: nat, i: int, ok: bool)
    requires 0 <= i < 512 && t < |s.mem| <= MAX_PAGES
  {
    if Present(s.mem[t][i]) then ok && s' == s
    else if s.free == 0 then !ok && s' == s
    else
      var n := FirstFree(s.used, 0, |s.mem|);
      ok && 0 < n < |s.mem| && s' == Snapshot(AddTable(s.mem, t, i, n), s.used + {n}, s.free - 1)
  }

  /** What one call of `vmm_map_page` does: with a page for each missing table it sets the mapping and takes exactly
  those pages; otherwise it fails and every mapping stays. */
  ghost predicate MapsPage(s: Snapshot, s': Snapshot, root: nat, vpn: nat, e: nat, r: int)
    requires vpn < VPN_LIMIT
  {
    var missing := Missing(s.mem, root, LeafPath(vpn).up);
    && Grew(s.mem, s.used, s'.mem, s'.used, root, LeafPath(vpn).up) && (Compact(s) ==> Compact(s'))
    && (if s.free < missing then r == -1 && s'.free == 0 && Flat(s'.mem, root) == Flat(s.mem, root)
        else && r == 0 && s'.free == s.free - missing && e <= ALL_ONES
             && Flat(s'.mem, root) == SetEntry(Flat(s.mem, root), vpn, e)
             && TableAt(s'.mem, root, LeafPath(vpn).up).Some?)
  }

  function SetEntry(flat: map<nat, Word>, vpn: nat, e: Word): map<nat, Word> {
    if Present(e) then flat[vpn := e] else flat - {vpn}
  }

  lemma OrOfWords(a: Word, b: Word)
    ensures Or(a, b) <= ALL_ONES
  {
    PowersUsed();
    OrBound(a, b, 64);
  }

  /** The descent from `s0` has reached table `t` at `p` and paid one page for each table that was missing. */
  ghost predicate Reached(s0: Snapshot, s: Snapshot, root: nat, p: Path, t: nat) {
    && Grew(s0.mem, s0.used, s.mem, s.used, root, p) && Flat(s.mem, root) == Flat(s0.mem, root)
    && TableAt(s.mem, root, p) == Some(t) && 0 < t < |s.mem| && t in s.used
    && s.free == s0.free - Missing(s0.mem, root, p) && (Compact(s0) ==> Compact(s))
  }

  /** The descent from `s0` found no page for the table at `p`. */
  ghost predicate RanOut(s0: Snapshot, s: Snapshot, root: nat, p: Path) {
    && Grew(s0.mem, s0.used, s.mem, s.used, root, p) && Flat(s.mem, root) == Flat(s0.mem, root)
    && s.free == 0 && s0.free < Missing(s0.mem, root, p) && (Compact(s0) ==> Compact(s))
  }

  lemma TableInUse(mem: Memory, root: nat, used: set<nat>, p: Path, t: nat)
    requires Tree(mem, root, used) && InRange(p, 3) && TableAt(mem, root, p) == Some(t)
    ensures 0 < t < |mem| && t in used
  {
    assert IsTable(mem, root, t);
  }

  lemma StartLevel(s: Snapshot, root: nat)
    requires Tree(s.mem, root, s.used)
    ensures Reached(s, s, root, Root, root)
  {
    TableInUse(s.mem, root, s.used, Root, root);
  }

  /** One level of the descent: either memory runs out, or the table exists, at the price of one page exactly if it was
  missing. */
  lemma NextLevel(s0: Snapshot, s: Snapshot, s': Snapshot, root: nat, w: Path, t: nat, ok: bool)
    requires w.Step? && InRange(w, 3) && |s.mem| <= MAX_PAGES && Reached(s0, s, root, w.up, t)
    requires EnsuresTable(s, s', t, w.index, ok)
    ensures ok ==> Reached(s0, s', root, w, Target(s'.mem[t][w.index]))
    ensures !ok ==> RanOut(s0, s', root, w)
  {
    InRangeGrows(w.up, 2);
    assert EntryAt(s.mem, root, w) == s.mem[t][w.index];
    assert TableAt(s.mem, root, w).Some? <==> TableAt(s0.mem, root, w).Some? by { NotOnOwnWay(w); }
    if Present(s.mem[t][w.index]) || s.free == 0 {
      GrewNot(s.mem, s.used, root, w);
    } else {
      AddTableGrows(s.mem, s.used, root, w, t, FirstFree(s.used, 0, |s.mem|));
      TakingKeepsCompact(s, s');
      assert s'.mem[t][w.index] == EntryAt(s'.mem, root, w);
    }
    GrewTransitive(s0.mem, s0.used, s.mem, s.used, s'.mem, s'.used, root, w.up, w);
    if ok { TableInUse(s'.mem, root, s'.used, w, Target(s'.mem[t][w.index])); }
  }

  lemma {:induction false} NotOnOwnWay(w: Path)
    requires w.Step?
    ensures !OnWay(w, w.up)
  {
    if OnWay(w, w.up) { OnWayIsShorter(w, w.up); }
  }

  lemma {:induction false} OnWayIsShorter(q: Path, p: Path)
    requires OnWay(q, p)
    ensures Length(q) <= Length(p)
    decreases p
  {
    if q != p { OnWayIsShorter(q, p.up); }
  }

  function Length(p: Path): nat {
    match p
    case Root => 0
    case Step(q, _) => 1 + Length(q)
  }

  lemma RanOutFails(s0: Snapshot, s: Snapshot, root: nat, vpn: nat, e: nat, q: Path)
    requires vpn < VPN_LIMIT && OnWay(q, LeafPath(vpn).up) && RanOut(s0, s, root, q)
    ensures MapsPage(s0, s, root, vpn, e, -1)
  {
    MissingOnWay(s0.mem, root, q, LeafPath(vpn).up);
    GrewLonger(s0.mem, s0.used, s.mem, s.used, root, q, LeafPath(vpn).up);
  }

  lemma GrewLonger(mem: Memory, used: set<nat>, mem': Memory, used': set<nat>, root: nat, q: Path, p: Path)
    requires Grew(mem, used, mem', used', root, q) && OnWay(q, p)
    ensures Grew(mem, used, mem', used', root, p)
  {
    forall r | OnWay(r, q) ensures OnWay(r, p) { OnWayTransitive(r, q, p); }
  }

  lemma {:induction false} OnWayTransitive(r: Path, q: Path, p: Path)
    requires OnWay(r, q) && OnWay(q, p)
    ensures OnWay(r, p)
    decreases p
  {
    if q != p { OnWayTransitive(r, q, p.up); }
  }

  /** The final write of `vmm_map_page`, after the tables on the way exist. */
  lemma LeafStep(s0: Snapshot, s: Snapshot, root: nat, vpn: nat, t: nat, e: Word)
    requires vpn < VPN_LIMIT && Reached(s0, s, root, LeafPath(vpn).up, t)
    ensures t < |s.mem| && MapsPage(s0, s.(mem := Write(s.mem, t, LeafPath(vpn).index, e)), root, vpn, e, 0)
  {
    var w := LeafPath(vpn);
    var m' := Write(s.mem, t, w.index, e);
    assert IsTable(s.mem, root, t);
    WriteEntries(s.mem, root, w, t, e);
    LeafKeepsTree(s.mem, m', root, s.used, vpn, e);
    GrewSame(s0.mem, s0.used, s.mem, m', s.used, root, w.up, t);
  }

  lemma GrewSame(mem: Memory, used: set<nat>, m3: Memory, mem': Memory, u3: set<nat>, root: nat, at: Path, t: nat)
    requires Grew(mem, used, m3, u3, root, at) && |mem'| == |m3| && Tree(mem', root, u3)
    requires forall p | InRange(p, 3) :: TableAt(mem', root, p) == TableAt(m3, root, p)
    requires IsTable(m3, root, t) && forall n | 0 <= n < |m3| && n != t :: mem'[n] == m3[n]
    ensures Grew(mem, used, mem', u3, root, at)
  {
    SameTables(m3, mem', root);
  }

  /** Mapping an aligned frame with PRESENT set, as the processor sees it: on success the page of `vaddr` translates to
  the frame; every address that differs in bits 12..47, and on failure every address, translates as before. */
  lemma MappingSeenByProcessor(s: Snapshot, s': Snapshot, root: nat, vaddr: Word, frame: nat, flags: nat, r: int,
                               a: Word)
    requires Tree(s.mem, root, s.used) && |s.mem| <= MAX_PAGES && frame < MAX_FRAMES && flags < 4096 && flags % 2 == 1
    requires MapsPage(s, s', root, VpnOf(vaddr), Or(4096 * frame, flags), r)
    ensures r == 0 || r == -1
    ensures r == 0 <==> Missing(s.mem, root, LeafPath(VpnOf(vaddr)).up) <= s.free
    ensures r == 0 && VpnOf(a) == VpnOf(vaddr) ==> Walk(s'.mem, root, a) == Some(4096 * frame + a % 4096)
    ensures r != 0 || VpnOf(a) != VpnOf(vaddr) ==> Walk(s'.mem, root, a) == Walk(s.mem, root, a)
  {
    AlignedEntry(frame, flags);
    MapSeen(s, s', root, VpnOf(vaddr), Or(4096 * frame, flags), frame, r, a);
  }

  lemma MapSeen(s: Snapshot, s': Snapshot, root: nat, vpn: nat, e: Word, frame: nat, r: int, a: Word)
    requires Tree(s.mem, root, s.used) && |s.mem| <= MAX_PAGES && vpn < VPN_LIMIT && Present(e) && Base(e) == frame
    requires MapsPage(s, s', root, vpn, e, r)
    ensures r == if s.free < Missing(s.mem, root, LeafPath(vpn).up) then -1 else 0
    ensures Walk(s'.mem, root, a) ==
            if r == 0 && VpnOf(a) == vpn then Some(4096 * frame + a % 4096) else Walk(s.mem, root, a)
  {
    WalkSeesFlatMap(s.mem, root, s.used, a);
    WalkSeesFlatMap(s'.mem, root, s'.used, a);
    TranslateAfterSet(Flat(s.mem, root), vpn, e, frame, a);
  }

  lemma TranslateAfterSet(flat: map<nat, Word>, vpn: nat, e: Word, frame: nat, a: Word)
    requires Present(e) && Base(e) == frame
    ensures Translate(SetEntry(flat, vpn, e), a) ==
            if VpnOf(a) == vpn then Some(4096 * frame + a % 4096) else Translate(flat, a)
  {
  }

  lemma AlignedEntry(frame: nat, flags: nat)
    requires frame < MAX_FRAMES && flags < 4096 && flags % 2 == 1
    ensures Or(4096 * frame, flags) <= ALL_ONES && Present(Or(4096 * frame, flags))
    ensures Base(Or(4096 * frame, flags)) == frame
  {
    LeafWord(frame, flags);
    OrOfFrame(frame, flags);
  }

  lemma LeafWord(frame: nat, flags: nat)
    requires frame < MAX_FRAMES && flags < 4096 && flags % 2 == 1
    ensures 4096 * frame + flags <= ALL_ONES && Present(4096 * frame + flags) && Base(4096 * frame + flags) == frame
  {
    DivModUnique(4096 * frame + flags, 4096, frame, flags);
    DivModUnique(4096 * frame + flags, 2, 2048 * frame + flags / 2, 1);
  }

  /** What the processor then allows at the page: writes and user-mode accesses exactly as the flags say. Nothing
  changes for any other page. */
  lemma AccessAfterMapping(s: Snapshot, s': Snapshot, root: nat, vaddr: Word, frame: nat, flags: nat, r: int, a: Word)
    requires Tree(s.mem, root, s.used) && |s.mem| <= MAX_PAGES && frame < MAX_FRAMES && flags < 4096 && flags % 2 == 1
    requires MapsPage(s, s', root, VpnOf(vaddr), Or(4096 * frame, flags), r)
    ensures r == 0 && VpnOf(a) == VpnOf(vaddr) ==>
              AccessAt(s'.mem, root, a) == Some(Access(flags / 2 % 2 == 1, flags / 4 % 2 == 1))
    ensures r != 0 || VpnOf(a) != VpnOf(vaddr) ==> AccessAt(s'.mem, root, a) == AccessAt(s.mem, root, a)
  {
    AlignedEntry(frame, flags);
    AlignedBits(frame, flags);
    AccessSeen(s, s', root, VpnOf(vaddr), Or(4096 * frame, flags), r, a);
  }

  lemma AccessSeen(s: Snapshot, s': Snapshot, root: nat, vpn: nat, e: Word, r: int, a: Word)
    requires Tree(s.mem, root, s.used) && |s.mem| <= MAX_PAGES && vpn < VPN_LIMIT && Present(e)
    requires MapsPage(s, s', root, vpn, e, r)
    ensures AccessAt(s'.mem, root, a) ==
            if r == 0 && VpnOf(a) == vpn then Some(Access(WriteBit(e), UserBit(e))) else AccessAt(s.mem, root, a)
  {
    AccessSeesFlatMap(s.mem, root, s.used, a);
    AccessSeesFlatMap(s'.mem, root, s'.used, a);
  }

  lemma AlignedBits(frame: nat, flags: nat)
    requires frame < MAX_FRAMES && flags < 4096 && Or(4096 * frame, flags) <= ALL_ONES
    ensures WriteBit(Or(4096 * frame, flags)) == (flags / 2 % 2 == 1)
    ensures UserBit(Or(4096 * frame, flags)) == (flags / 4 % 2 == 1)
  {
    OrOfFrame(frame, flags);
    BitsOfSum(frame, flags);
  }

  lemma BitsOfSum(n: nat, flags: nat)
    ensures (4096 * n + flags) / 2 % 2 == flags / 2 % 2 && (4096 * n + flags) / 4 % 2 == flags / 4 % 2
  {
    DivModUnique(4096 * n + flags, 2, 2048 * n + flags / 2, flags % 2);
    DivModUnique(2048 * n + flags / 2, 2, 1024 * n + flags / 2 / 2, flags / 2 % 2);
    DivModUnique(4096 * n + flags, 4, 1024 * n + flags / 4, flags % 4);
    DivModUnique(1024 * n + flags / 4, 2, 512 * n + flags / 4 / 2, flags / 4 % 2);
  }
}
