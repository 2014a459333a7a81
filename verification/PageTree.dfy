/** Four-level page tables as data in physical memory (kernel/mm/mm.c).

Physical memory is a sequence of page frames of 512 words. A table is named by the path of indices that leads to it
from the root; `TableAt` follows that path, and everything about the tree is stated through it.
*/
module PageTree {
  import opened Options

  const TABLE_FLAGS: Word := 7  // PAGE_PRESENT | PAGE_WRITE | PAGE_USER
  const VPN_LIMIT: nat := 0x10_0000_0000  // bits 12..47 of an address
  const MAX_FRAMES: nat := 0x100_0000_0000  // frames that bits 12..51 of an entry can name

  type Word = w: int | 0 <= w < 0x1_0000_0000_0000_0000
  type Frame = f: seq<Word> | |f| == 512 witness seq(512, _ => 0)
  type Memory = seq<Frame>

  datatype Path = Root | Step(up: Path, index: int)

  function ZeroFrame(): (f: Frame)
    ensures forall i :: 0 <= i < 512 ==> f[i] == 0
  {
    seq(512, _ => 0)
  }

  predicate Present(e: Word) { e % 2 == 1 }

  /** `e & ~0xFFF`, as a frame number */
  function Target(e: Word): nat { e / 4096 }

  /** Paths of at most `depth` table indices. */
  predicate InRange(p: Path, depth: nat) {
    match p
    case Root => true
    case Step(q, i) => depth > 0 && 0 <= i < 512 && InRange(q, depth - 1)
  }

  function EntryOf(mem: Memory, t: int, i: int): Word {
    if 0 <= t < |mem| && 0 <= i < 512 then mem[t][i] else 0
  }

  /** Frame of the table that `p` leads to, if every entry on the way is present. */
  function TableAt(mem: Memory, root: nat, p: Path): Option<nat>
    decreases p, 1
  {
    if p == Root then Some(root)
    else if Present(EntryAt(mem, root, p)) then Some(Target(EntryAt(mem, root, p)))
    else None
  }

  /** The entry that a path ends in; 0, which is not present, when the path breaks off earlier. */
  function EntryAt(mem: Memory, root: nat, p: Path): Word
    requires p.Step?
    decreases p, 0
  {
    match TableAt(mem, root, p.up)
    case None => 0
    case Some(t) => EntryOf(mem, t, p.index)
  }

  /** Path to the leaf of a virtual page number (bits 12..47 of an address). */
  function LeafPath(vpn: nat): (p: Path)
    requires vpn < VPN_LIMIT
    ensures p.Step? && InRange(p, 4) && InRange(p.up, 3) && !InRange(p, 3)
  {
    Step(Step(Step(Step(Root, vpn / 0x800_0000), vpn / 0x4_0000 % 512), vpn / 512 % 512), vpn % 512)
  }

  lemma LeafPathInjective(v: nat, w: nat)
    requires v < VPN_LIMIT && w < VPN_LIMIT
    ensures LeafPath(v) == LeafPath(w) <==> v == w
  {
    assert v / 512 / 512 == v / 0x4_0000 && v / 0x4_0000 / 512 == v / 0x800_0000;
    assert w / 512 / 512 == w / 0x4_0000 && w / 0x4_0000 / 512 == w / 0x800_0000;
  }

  /** The flat map that the tree stands for: virtual page number to leaf entry. */
  ghost function Flat(mem: Memory, root: nat): map<nat, Word> {
    map v: nat | v < VPN_LIMIT && Present(EntryAt(mem, root, LeafPath(v))) :: EntryAt(mem, root, LeafPath(v))
  }

  ghost predicate IsTable(mem: Memory, root: nat, t: nat) {
    exists p :: InRange(p, 3) && TableAt(mem, root, p) == Some(t)
  }

  ghost predicate TablesAllocated(mem: Memory, root: nat, used: set<nat>) {
    forall t: nat :: IsTable(mem, root, t) ==> 0 < t < |mem| && t in used
  }

  /** No two paths share a table, so each table is referenced exactly once. */
  ghost predicate NoSharing(mem: Memory, root: nat) {
    forall p, q | InRange(p, 3) && InRange(q, 3) && TableAt(mem, root, p).Some? ::
      TableAt(mem, root, p) == TableAt(mem, root, q) ==> p == q
  }

  /** Entries above the leaves carry exactly the flags the builder writes. */
  ghost predicate PlainLinks(mem: Memory, root: nat) {
    forall p | InRange(p, 3) && p.Step? ::
      Present(EntryAt(mem, root, p)) ==> EntryAt(mem, root, p) % 4096 == TABLE_FLAGS
  }

  /** What every operation keeps. */
  ghost predicate Tree(mem: Memory, root: nat, used: set<nat>) {
    TablesAllocated(mem, root, used) && NoSharing(mem, root) && PlainLinks(mem, root)
  }

  lemma {:induction false} InRangeGrows(p: Path, d: nat)
    requires InRange(p, d)
    ensures InRange(p, d + 1)
  {
    if p.Step? { InRangeGrows(p.up, d - 1); }
  }

  lemma Deeper()
    ensures forall p :: InRange(p, 3) ==> InRange(p, 4)
  {
    forall p | InRange(p, 3) ensures InRange(p, 4) { InRangeGrows(p, 3); }
  }

  lemma PathsInRange(a: int, b: int, c: int)
    requires 0 <= a < 512 && 0 <= b < 512 && 0 <= c < 512
    ensures InRange(Step(Root, a), 3) && InRange(Step(Step(Root, a), b), 3)
    ensures InRange(Step(Step(Step(Root, a), b), c), 3)
  {
    assert InRange(Step(Root, a), 1) && InRange(Step(Root, a), 2);
    assert InRange(Step(Step(Root, a), b), 2);
  }

  /** Two memories agree on the entries of all paths of up to `d` indices. */
  ghost predicate SameEntries(mem: Memory, mem': Memory, root: nat, d: nat) {
    forall p | InRange(p, d) && p.Step? :: EntryAt(mem', root, p) == EntryAt(mem, root, p)
  }

  /** If no entry above the leaves differs, the tables are the same. */
  lemma SameUpper(mem: Memory, mem': Memory, root: nat, used: set<nat>)
    requires Tree(mem, root, used) && |mem'| == |mem| && SameEntries(mem, mem', root, 3)
    ensures forall p | InRange(p, 3) :: TableAt(mem', root, p) == TableAt(mem, root, p)
    ensures forall t: nat :: IsTable(mem', root, t) == IsTable(mem, root, t)
    ensures Tree(mem', root, used)
  {
    assert forall p | InRange(p, 3) :: TableAt(mem', root, p) == TableAt(mem, root, p);
    SameTables(mem, mem', root);
  }

  lemma SameTables(mem: Memory, mem': Memory, root: nat)
    requires forall p | InRange(p, 3) :: TableAt(mem', root, p) == TableAt(mem, root, p)
    ensures forall t: nat :: IsTable(mem', root, t) == IsTable(mem, root, t)
  {
    forall t: nat ensures IsTable(mem', root, t) == IsTable(mem, root, t) {
      if p :| InRange(p, 3) && TableAt(mem, root, p) == Some(t) {
        assert TableAt(mem', root, p) == Some(t);
      }
    }
  }

  /** Clearing a free frame changes no entry of the tree. */
  lemma {:induction false} ClearMissesEntry(mem: Memory, root: nat, used: set<nat>, n: nat, p: Path)
    requires Tree(mem, root, used) && n < |mem| && n !in used && InRange(p, 4) && p.Step?
    ensures EntryAt(mem[n := ZeroFrame()], root, p) == EntryAt(mem, root, p)
    decreases p
  {
    if p.up.Step? {
      InRangeGrows(p.up, 3);
      ClearMissesEntry(mem, root, used, n, p.up);
    }
    if TableAt(mem, root, p.up).Some? { assert IsTable(mem, root, TableAt(mem, root, p.up).value); }
  }

  lemma ClearKeepsTree(mem: Memory, root: nat, used: set<nat>, n: nat)
    requires Tree(mem, root, used) && n < |mem| && n !in used
    ensures Tree(mem[n := ZeroFrame()], root, used) && !IsTable(mem[n := ZeroFrame()], root, n)
    ensures SameEntries(mem, mem[n := ZeroFrame()], root, 4)
    ensures forall p | InRange(p, 3) :: TableAt(mem[n := ZeroFrame()], root, p) == TableAt(mem, root, p)
    ensures forall t: nat :: IsTable(mem[n := ZeroFrame()], root, t) == IsTable(mem, root, t)
    ensures Flat(mem[n := ZeroFrame()], root) == Flat(mem, root)
  {
    var mem' := mem[n := ZeroFrame()];
    forall p | InRange(p, 4) && p.Step? ensures EntryAt(mem', root, p) == EntryAt(mem, root, p) {
      ClearMissesEntry(mem, root, used, n, p);
    }
    Deeper();
    SameUpper(mem, mem', root, used);
  }

  /** A link to a cleared frame that no path reaches yet, written over an entry that is not present. */
  ghost predicate IsNewLink(mem: Memory, root: nat, p: Path, e: Word)
    requires p.Step?
  {
    && !Present(EntryAt(mem, root, p))
    && Present(e) && e % 4096 == TABLE_FLAGS
    && 0 < Target(e) < |mem|
    && mem[Target(e)] == ZeroFrame()
    && !IsTable(mem, root, Target(e))
  }

  /** An entry that may be written at the end of `w`, where only the path `w.up` leads to table `t`: any leaf, or a new
  link. */
  ghost predicate Writable(mem: Memory, root: nat, w: Path, t: nat, e: Word) {
    && w.Step? && InRange(w, 4) && t < |mem|
    && TableAt(mem, root, w.up) == Some(t)
    && (forall q | InRange(q, 3) :: TableAt(mem, root, q) == Some(t) ==> q == w.up)
    && (!InRange(w, 3) || (IsNewLink(mem, root, w, e) && Target(e) != t))
  }

  function Write(mem: Memory, t: nat, i: int, e: Word): Memory
    requires t < |mem| && 0 <= i < 512
  {
    mem[t := mem[t][i := e]]
  }

  /** The entries after one write, `w` being the path written. */
  ghost predicate EntriesAfter(mem: Memory, mem': Memory, root: nat, w: Path, e: Word) {
    forall p | InRange(p, 4) && p.Step? :: EntryAt(mem', root, p) == if p == w then e else EntryAt(mem, root, p)
  }

  /** Writing one entry of the tree changes that entry and no other. */
  lemma {:induction false} WriteEntry(mem: Memory, root: nat, w: Path, t: nat, e: Word, p: Path)
    requires Writable(mem, root, w, t, e) && InRange(p, 4) && p.Step?
    ensures EntryAt(Write(mem, t, w.index, e), root, p) == if p == w then e else EntryAt(mem, root, p)
    decreases p
  {
    if p.up.Step? {
      InRangeGrows(p.up, 3);
      WriteEntry(mem, root, w, t, e, p.up);
      if p.up == w { assert EntryOf(Write(mem, t, w.index, e), Target(e), p.index) == 0; }
    }
  }

  lemma WriteEntries(mem: Memory, root: nat, w: Path, t: nat, e: Word)
    requires Writable(mem, root, w, t, e)
    ensures EntriesAfter(mem, Write(mem, t, w.index, e), root, w, e)
  {
    forall p | InRange(p, 4) && p.Step?
      ensures EntryAt(Write(mem, t, w.index, e), root, p) == if p == w then e else EntryAt(mem, root, p)
    {
      WriteEntry(mem, root, w, t, e, p);
    }
  }

  /** A link adds exactly one table, the frame it points to. */
  lemma LinkTables(mem: Memory, mem': Memory, root: nat, w: Path, e: Word)
    requires w.Step? && InRange(w, 3) && Present(e) && EntriesAfter(mem, mem', root, w, e)
    requires !Present(EntryAt(mem, root, w))
    ensures forall p | InRange(p, 3) ::
              TableAt(mem', root, p) == if p == w then Some(Target(e)) else TableAt(mem, root, p)
    ensures forall t: nat :: IsTable(mem', root, t) == (IsTable(mem, root, t) || t == Target(e))
  {
    Deeper();
    assert forall p | InRange(p, 3) ::
        TableAt(mem', root, p) == if p == w then Some(Target(e)) else TableAt(mem, root, p);
    forall t: nat ensures IsTable(mem', root, t) == (IsTable(mem, root, t) || t == Target(e)) {
      if p :| InRange(p, 3) && TableAt(mem, root, p) == Some(t) {
        assert TableAt(mem', root, p) == Some(t);
      } else if t == Target(e) {
        assert TableAt(mem', root, w) == Some(t);
      }
    }
  }

  lemma LinkKeepsNoSharing(mem: Memory, mem': Memory, root: nat, w: Path, n: nat)
    requires NoSharing(mem, root) && !IsTable(mem, root, n)
    requires forall p | InRange(p, 3) :: TableAt(mem', root, p) == if p == w then Some(n) else TableAt(mem, root, p)
    ensures NoSharing(mem', root)
  {
    forall p, q | InRange(p, 3) && InRange(q, 3) && TableAt(mem', root, p).Some? &&
                  TableAt(mem', root, p) == TableAt(mem', root, q)
      ensures p == q
    {
      assert TableAt(mem, root, p) != Some(n) && TableAt(mem, root, q) != Some(n);
    }
  }

  lemma LinkMissesLeaves(mem: Memory, mem': Memory, root: nat, w: Path, e: Word)
    requires InRange(w, 3) && EntriesAfter(mem, mem', root, w, e)
    ensures Flat(mem', root) == Flat(mem, root)
  {
    forall v: nat | v < VPN_LIMIT ensures EntryAt(mem', root, LeafPath(v)) == EntryAt(mem, root, LeafPath(v)) {
      assert LeafPath(v) != w;
    }
  }

  /** A link adds one table and leaves the flat map alone. */
  lemma LinkKeepsTree(mem: Memory, mem': Memory, root: nat, used: set<nat>, w: Path, e: Word)
    requires w.Step? && InRange(w, 3) && Tree(mem, root, used) && IsNewLink(mem, root, w, e)
    requires Target(e) in used && |mem'| == |mem| && EntriesAfter(mem, mem', root, w, e)
    ensures Tree(mem', root, used) && Flat(mem', root) == Flat(mem, root)
    ensures forall p | InRange(p, 3) ::
              TableAt(mem', root, p) == if p == w then Some(Target(e)) else TableAt(mem, root, p)
    ensures forall t: nat :: IsTable(mem', root, t) == (IsTable(mem, root, t) || t == Target(e))
  {
    LinkTables(mem, mem', root, w, e);
    assert Flat(mem', root) == Flat(mem, root) by { LinkMissesLeaves(mem, mem', root, w, e); }
    LinkKeepsNoSharing(mem, mem', root, w, Target(e));
    LinkKeepsPlain(mem, mem', root, w, e);
  }

  lemma LinkKeepsPlain(mem: Memory, mem': Memory, root: nat, w: Path, e: Word)
    requires PlainLinks(mem, root) && e % 4096 == TABLE_FLAGS && EntriesAfter(mem, mem', root, w, e)
    ensures PlainLinks(mem', root)
  {
    Deeper();
  }

  /** A leaf write sets or, if the entry is not present, removes one mapping of the flat map and moves no table. */
  lemma LeafKeepsTree(mem: Memory, mem': Memory, root: nat, used: set<nat>, vpn: nat, e: Word)
    requires Tree(mem, root, used) && vpn < VPN_LIMIT
    requires |mem'| == |mem| && EntriesAfter(mem, mem', root, LeafPath(vpn), e)
    ensures Tree(mem', root, used)
    ensures Flat(mem', root) == if Present(e) then Flat(mem, root)[vpn := e] else Flat(mem, root) - {vpn}
    ensures forall p | InRange(p, 3) :: TableAt(mem', root, p) == TableAt(mem, root, p)
    ensures forall t: nat :: IsTable(mem', root, t) == IsTable(mem, root, t)
  {
    Deeper();
    SameUpper(mem, mem', root, used);
    LeafSetsEntry(mem, mem', root, vpn, e);
  }

  lemma LeafSetsEntry(mem: Memory, mem': Memory, root: nat, vpn: nat, e: Word)
    requires vpn < VPN_LIMIT && EntriesAfter(mem, mem', root, LeafPath(vpn), e)
    ensures Flat(mem', root) == if Present(e) then Flat(mem, root)[vpn := e] else Flat(mem, root) - {vpn}
  {
    var flat, flat' := Flat(mem, root), Flat(mem', root);
    forall v: nat | v < VPN_LIMIT
      ensures v in flat' <==> if v == vpn then Present(e) else v in flat
      ensures v in flat' ==> flat'[v] == if v == vpn then e else flat[v]
    {
      var p := LeafPath(v);
      LeafPathInjective(v, vpn);
      assert EntryAt(mem', root, p) == if v == vpn then e else EntryAt(mem, root, p);
    }
    assert forall v | v in flat' || v in flat :: v < VPN_LIMIT;
  }

  /** Paths on the way to `p`. */
  predicate OnWay(q: Path, p: Path) {
    q == p || (p.Step? && OnWay(q, p.up))
  }

  /** What building tables on the way to `path` may do: old tables stay, new ones are newly allocated pages and lie
  on that path, and no allocated page that is not a table is touched. */
  ghost predicate Grew(mem: Memory, used: set<nat>, mem': Memory, used': set<nat>, root: nat, path: Path) {
    && |mem'| == |mem| && used <= used' && Tree(mem', root, used')
    && (forall t: nat :: IsTable(mem', root, t) <==> IsTable(mem, root, t) || t in used' - used)
    && (forall n: nat | n < |mem| && n in used && !IsTable(mem, root, n) :: mem'[n] == mem[n])
    && (forall q | InRange(q, 3) :: TableAt(mem, root, q).Some? ==> TableAt(mem', root, q) == TableAt(mem, root, q))
    && (forall q | InRange(q, 3) :: TableAt(mem', root, q).Some? ==> TableAt(mem, root, q).Some? || OnWay(q, path))
  }

  lemma GrewNot(mem: Memory, used: set<nat>, root: nat, path: Path)
    requires Tree(mem, root, used)
    ensures Grew(mem, used, mem, used, root, path)
  {
  }

  lemma GrewTransitive(m0: Memory, u0: set<nat>, m1: Memory, u1: set<nat>, m2: Memory, u2: set<nat>, root: nat,
                       p: Path, q: Path)
    requires q.Step? && q.up == p && Grew(m0, u0, m1, u1, root, p) && Grew(m1, u1, m2, u2, root, q)
    ensures Grew(m0, u0, m2, u2, root, q)
  {
  }

  /** Clearing page `n` and linking it into entry `i` of table `t`. */
  function AddTable(mem: Memory, t: nat, i: int, n: nat): Memory
    requires n < |mem| <= MAX_FRAMES && 0 <= i < 512 && t < |mem|
  {
    Write(mem[n := ZeroFrame()], t, i, 4096 * n + TABLE_FLAGS)
  }

  lemma GrewFromCleared(mem: Memory, cleared: Memory, used: set<nat>, mem': Memory, n: nat, root: nat, w: Path)
    requires Tree(mem', root, used + {n}) && |mem'| == |cleared| == |mem| && n !in used
    requires forall m: nat | m < |mem| && m in used && !IsTable(mem, root, m) :: mem'[m] == mem[m]
    requires forall p | InRange(p, 3) :: TableAt(cleared, root, p) == TableAt(mem, root, p)
    requires forall p | InRange(p, 3) ::
               TableAt(mem', root, p) == if p == w then Some(n) else TableAt(cleared, root, p)
    requires forall t: nat :: IsTable(mem', root, t) == (IsTable(cleared, root, t) || t == n)
    requires TableAt(cleared, root, w) == None
    ensures Grew(mem, used, mem', used + {n}, root, w)
  {
    SameTables(mem, cleared, root);
  }

  lemma AddTableGrows(mem: Memory, used: set<nat>, root: nat, w: Path, t: nat, n: nat)
    requires Tree(mem, root, used) && w.Step? && InRange(w, 3) && TableAt(mem, root, w.up) == Some(t) && t < |mem|
    requires !Present(EntryAt(mem, root, w)) && 0 < n < |mem| <= MAX_FRAMES && n !in used
    ensures Grew(mem, used, AddTable(mem, t, w.index, n), used + {n}, root, w)
    ensures Flat(AddTable(mem, t, w.index, n), root) == Flat(mem, root)
    ensures TableAt(AddTable(mem, t, w.index, n), root, w) == Some(n)
  {
    var cleared, e: Word := mem[n := ZeroFrame()], 4096 * n + TABLE_FLAGS;
    var mem' := AddTable(mem, t, w.index, n);
    assert mem' == Write(cleared, t, w.index, e);
    ClearKeepsTree(mem, root, used, n);
    NewLink(mem, cleared, root, used, w, t, n);
    WriteEntries(cleared, root, w, t, e);
    LinkKeepsTree(cleared, mem', root, used + {n}, w, e);
    GrewFromCleared(mem, cleared, used, mem', n, root, w);
  }

  lemma NewLink(mem: Memory, cleared: Memory, root: nat, used: set<nat>, w: Path, t: nat, n: nat)
    requires w.Step? && InRange(w, 3) && TableAt(mem, root, w.up) == Some(t) && t < |mem| <= MAX_FRAMES
    requires Tree(cleared, root, used) && SameEntries(mem, cleared, root, 4)
    requires 0 < n < |mem| == |cleared| && cleared[n] == ZeroFrame() && !IsTable(cleared, root, n)
    requires forall p | InRange(p, 3) :: TableAt(cleared, root, p) == TableAt(mem, root, p)
    requires !Present(EntryAt(mem, root, w))
    ensures Writable(cleared, root, w, t, 4096 * n + TABLE_FLAGS)
    ensures IsNewLink(cleared, root, w, 4096 * n + TABLE_FLAGS) && TableAt(cleared, root, w) == None
    ensures IsTable(cleared, root, t) && t in used
  {
    Deeper();
    InRangeGrows(w.up, 2);
    LinkWord(n);
    assert TableAt(cleared, root, w.up) == Some(t);
  }

  lemma LinkWord(n: nat)
    requires n < MAX_FRAMES
    ensures Present(4096 * n + TABLE_FLAGS)
    ensures (4096 * n + TABLE_FLAGS) % 4096 == TABLE_FLAGS && Target(4096 * n + TABLE_FLAGS) == n
  {
    assert 4096 * n + TABLE_FLAGS == 2 * (2048 * n + 3) + 1;
  }

  /** Number of tables that are missing on the way to the table at `p`. */
  function Missing(mem: Memory, root: nat, p: Path): nat {
    match p
    case Root => 0
    case Step(q, _) => Missing(mem, root, q) + (if TableAt(mem, root, p).None? then 1 else 0)
  }

  lemma {:induction false} MissingOnWay(mem: Memory, root: nat, q: Path, p: Path)
    requires OnWay(q, p)
    ensures Missing(mem, root, q) <= Missing(mem, root, p)
    decreases p
  {
    if q != p { MissingOnWay(mem, root, q, p.up); }
  }

  lemma {:induction false} SameMissing(mem: Memory, mem': Memory, root: nat, p: Path)
    requires InRange(p, 3) && forall q | InRange(q, 3) :: TableAt(mem', root, q) == TableAt(mem, root, q)
    ensures Missing(mem', root, p) == Missing(mem, root, p)
    decreases p
  {
    if p.Step? {
      InRangeGrows(p.up, 2);
      SameMissing(mem, mem', root, p.up);
    }
  }
}
