/** The accesses a processor allows: section 4.6 of the Intel 64 and IA-32 Architectures Software Developer's Manual,
Volume 3A. */
module AccessRights {
  import opened Arithmetic
  import opened HardwareWalk
  import opened Options
  import opened PageTree

  /** Bit 1 of an entry: writes are allowed. */
  predicate WriteBit(e: Word) { e / 2 % 2 == 1 }

  /** Bit 2 of an entry: user-mode accesses are allowed. */
  predicate UserBit(e: Word) { e / 4 % 2 == 1 }

  /** What may be done to a present page: be written at all, and be accessed in user mode. */
  datatype Access = Access(write: bool, user: bool)

  /** Both bits must be set in every entry that the walk reads. */
  function Granted(entries: seq<Word>): Access {
    Access(forall i | 0 <= i < |entries| :: WriteBit(entries[i]), forall i | 0 <= i < |entries| :: UserBit(entries[i]))
  }

  function AccessByLevels(mem: Memory, cr3: nat, i4: int, i3: int, i2: int, i1: int): Option<Access> {
    var e4 := EntryOf(mem, cr3, i4);
    if !Present(e4) then None else
    var e3 := EntryOf(mem, Base(e4), i3);
    if !Present(e3) then None else if LargePage(e3) then Some(Granted([e4, e3])) else
    var e2 := EntryOf(mem, Base(e3), i2);
    if !Present(e2) then None else if LargePage(e2) then Some(Granted([e4, e3, e2])) else
    var e1 := EntryOf(mem, Base(e2), i1);
    if !Present(e1) then None else Some(Granted([e4, e3, e2, e1]))
  }

  /** The accesses allowed at a linear address; none if nothing is mapped there. */
  function AccessAt(mem: Memory, cr3: nat, vaddr: Word): Option<Access> {
    AccessByLevels(mem, cr3, vaddr / 0x80_0000_0000 % 512, vaddr / 0x4000_0000 % 512, vaddr / 0x20_0000 % 512,
                   vaddr / 0x1000 % 512)
  }

  /** A link of the builder, to the processor: a table at the same place, which restricts nothing. */
  predicate OpenLink(e: Word) {
    IsLink(e) && (Present(e) ==> WriteBit(e) && UserBit(e))
  }

  lemma LinkIsOpen(e: Word)
    requires e % 4096 == TABLE_FLAGS
    ensures WriteBit(e) && UserBit(e)
  {
    var n := e / 4096;
    DivModUnique(e, 2, 2048 * n + 3, 1);
    DivModUnique(2048 * n + 3, 2, 1024 * n + 1, 1);
    DivModUnique(e, 4, 1024 * n + 1, 3);
    DivModUnique(1024 * n + 1, 2, 512 * n, 1);
  }

  lemma OpenLinksOfTree(mem: Memory, root: nat, used: set<nat>, p: Path)
    requires Tree(mem, root, used) && |mem| <= MAX_FRAMES && InRange(p, 3) && p.Step?
    ensures OpenLink(EntryAt(mem, root, p))
  {
    LinksOfTree(mem, root, used, p);
    if Present(EntryAt(mem, root, p)) { LinkIsOpen(EntryAt(mem, root, p)); }
  }

  lemma AccessOfPath(mem: Memory, root: nat, a: int, b: int, c: int, d: int)
    requires OpenLink(EntryAt(mem, root, Step(Root, a)))
    requires OpenLink(EntryAt(mem, root, Step(Step(Root, a), b)))
    requires OpenLink(EntryAt(mem, root, Step(Step(Step(Root, a), b), c)))
    ensures var e := EntryAt(mem, root, Step(Step(Step(Step(Root, a), b), c), d));
            AccessByLevels(mem, root, a, b, c, d) == if Present(e) then Some(Access(WriteBit(e), UserBit(e))) else None
  {
    var p1 := Step(Root, a);
    var p2 := Step(p1, b);
    var p3 := Step(p2, c);
    var e4, e3, e2 := EntryAt(mem, root, p1), EntryAt(mem, root, p2), EntryAt(mem, root, p3);
    var e1 := EntryAt(mem, root, Step(p3, d));
    FirstEntry(mem, root, a);
    NextEntry(mem, root, p1, b);
    NextEntry(mem, root, p2, c);
    NextEntry(mem, root, p3, d);
    if Present(e4) && Present(e3) && Present(e2) { GrantedByLeaf(e4, e3, e2, e1); }
  }

  lemma GrantedByLeaf(e4: Word, e3: Word, e2: Word, e1: Word)
    requires WriteBit(e4) && UserBit(e4) && WriteBit(e3) && UserBit(e3) && WriteBit(e2) && UserBit(e2)
    ensures Granted([e4, e3, e2, e1]) == Access(WriteBit(e1), UserBit(e1))
  {
    assert [e4, e3, e2, e1][3] == e1;
  }

  /** In memory whose tables form a tree, the leaf alone decides: the accesses allowed are those of the flat map. */
  lemma AccessSeesFlatMap(mem: Memory, root: nat, used: set<nat>, vaddr: Word)
    requires Tree(mem, root, used) && |mem| <= MAX_FRAMES
    ensures var v, flat := VpnOf(vaddr), Flat(mem, root);
            AccessAt(mem, root, vaddr) == if v in flat then Some(Access(WriteBit(flat[v]), UserBit(flat[v]))) else None
  {
    LeafPathOfAddress(vaddr);
    AccessOfTree(mem, root, used, vaddr / 0x80_0000_0000 % 512, vaddr / 0x4000_0000 % 512, vaddr / 0x20_0000 % 512,
                 vaddr / 0x1000 % 512);
  }

  lemma AccessOfTree(mem: Memory, root: nat, used: set<nat>, a: int, b: int, c: int, d: int)
    requires Tree(mem, root, used) && |mem| <= MAX_FRAMES && 0 <= a < 512 && 0 <= b < 512 && 0 <= c < 512
    ensures var e := EntryAt(mem, root, Step(Step(Step(Step(Root, a), b), c), d));
            AccessByLevels(mem, root, a, b, c, d) == if Present(e) then Some(Access(WriteBit(e), UserBit(e))) else None
  {
    PathsInRange(a, b, c);
    OpenLinksOfTree(mem, root, used, Step(Root, a));
    OpenLinksOfTree(mem, root, used, Step(Step(Root, a), b));
    OpenLinksOfTree(mem, root, used, Step(Step(Step(Root, a), b), c));
    AccessOfPath(mem, root, a, b, c, d);
  }
}
