/** The address translation a processor performs, written down independently of the builder: 4-level paging as in
section 4.5 of the Intel 64 and IA-32 Architectures Software Developer's Manual, Volume 3A. */
module HardwareWalk {
  import opened Arithmetic
  import opened Options
  import opened PageTree

  /** Bits 51:12 of an entry. */
  function Base(e: Word): nat { e / 4096 % 0x100_0000_0000 }

  /** Bit 7: the entry maps a large page. */
  predicate LargePage(e: Word) { e / 128 % 2 == 1 }

  /** The entry a walk ends in, and the size of the page it maps. */
  datatype Translation = NotPresent | Page4K(e: Word) | Page2M(e: Word) | Page1G(e: Word)

  function Levels(mem: Memory, cr3: nat, i4: int, i3: int, i2: int, i1: int): Translation {
    var e4 := EntryOf(mem, cr3, i4);
    if !Present(e4) then NotPresent else
    var e3 := EntryOf(mem, Base(e4), i3);
    if !Present(e3) then NotPresent else if LargePage(e3) then Page1G(e3) else
    var e2 := EntryOf(mem, Base(e3), i2);
    if !Present(e2) then NotPresent else if LargePage(e2) then Page2M(e2) else
    var e1 := EntryOf(mem, Base(e2), i1);
    if !Present(e1) then NotPresent else Page4K(e1)
  }

  /** Physical address of a linear address. */
  function Walk(mem: Memory, cr3: nat, vaddr: Word): Option<nat> {
    match Levels(mem, cr3, vaddr / 0x80_0000_0000 % 512, vaddr / 0x4000_0000 % 512,
                 vaddr / 0x20_0000 % 512, vaddr / 0x1000 % 512)
    case NotPresent => None
    case Page4K(e) => Some(Base(e) * 4096 + vaddr % 4096)
    case Page2M(e) => Some(Base(e) / 512 * 0x20_0000 + vaddr % 0x20_0000)
    case Page1G(e) => Some(Base(e) / 0x4_0000 * 0x4000_0000 + vaddr % 0x4000_0000)
  }

  /** Bits 12..47 of an address, all that the walk looks at above the page offset. */
  function VpnOf(vaddr: Word): (vpn: nat)
    ensures vpn < VPN_LIMIT
  {
    vaddr / 4096 % VPN_LIMIT
  }

  /** The four shifts of the processor select the indices on the leaf path. */
  lemma LeafPathOfAddress(vaddr: Word)
    ensures LeafPath(VpnOf(vaddr)) ==
            Step(Step(Step(Step(Root, vaddr / 0x80_0000_0000 % 512), vaddr / 0x4000_0000 % 512),
                      vaddr / 0x20_0000 % 512), vaddr / 0x1000 % 512)
  {
    var n := vaddr / 4096;
    DivModNested(vaddr, 4096, 512);
    DivModNested(vaddr, 4096, 0x4_0000);
    DivModNested(vaddr, 4096, 0x800_0000);
    DivModNested(n, 512, 0x800_0000);
    DivModNested(n, 0x4_0000, 0x4_0000);
    DivModNested(n, 0x800_0000, 512);
    DivModNested(n / 512, 512, 0x4_0000);
    DivModNested(n / 0x4_0000, 512, 512);
  }

  /** An entry above the leaves reads the same to the builder and to the processor. */
  predicate IsLink(e: Word) { Present(e) ==> Target(e) == Base(e) && !LargePage(e) }

  lemma LinksOfTree(mem: Memory, root: nat, used: set<nat>, p: Path)
    requires Tree(mem, root, used) && |mem| <= MAX_FRAMES && InRange(p, 3) && p.Step?
    ensures IsLink(EntryAt(mem, root, p))
  {
    var e := EntryAt(mem, root, p);
    if Present(e) {
      assert IsTable(mem, root, Target(e)) by { assert TableAt(mem, root, p) == Some(Target(e)); }
      SmallLink(e);
    }
  }

  lemma SmallLink(e: Word)
    requires e % 4096 == TABLE_FLAGS && e / 4096 < MAX_FRAMES
    ensures e / 4096 == Base(e) && !LargePage(e)
  {
    assert e / 128 == e / 4096 * 32;
  }

  lemma LevelsOfPath(mem: Memory, root: nat, a: int, b: int, c: int, d: int)
    requires IsLink(EntryAt(mem, root, Step(Root, a)))
    requires IsLink(EntryAt(mem, root, Step(Step(Root, a), b)))
    requires IsLink(EntryAt(mem, root, Step(Step(Step(Root, a), b), c)))
    ensures var e := EntryAt(mem, root, Step(Step(Step(Step(Root, a), b), c), d));
            Levels(mem, root, a, b, c, d) == if Present(e) then Page4K(e) else NotPresent
  {
    var p1 := Step(Root, a);
    var p2 := Step(p1, b);
    var p3 := Step(p2, c);
    FirstEntry(mem, root, a);
    NextEntry(mem, root, p1, b);
    NextEntry(mem, root, p2, c);
    NextEntry(mem, root, p3, d);
  }

  lemma FirstEntry(mem: Memory, root: nat, i: int)
    ensures EntryAt(mem, root, Step(Root, i)) == EntryOf(mem, root, i)
  {
    assert TableAt(mem, root, Root) == Some(root);
  }

  /** The entry one step further on, if the link before it is present. */
  lemma NextEntry(mem: Memory, root: nat, p: Path, i: int)
    requires p.Step? && IsLink(EntryAt(mem, root, p))
    ensures EntryAt(mem, root, Step(p, i)) ==
            if Present(EntryAt(mem, root, p)) then EntryOf(mem, Base(EntryAt(mem, root, p)), i) else 0
  {
  }

  /** Translation by a flat map from page numbers to leaf entries. */
  function Translate(flat: map<nat, Word>, vaddr: Word): Option<nat> {
    if VpnOf(vaddr) in flat then Some(Base(flat[VpnOf(vaddr)]) * 4096 + vaddr % 4096) else None
  }

  /** In memory whose tables form a tree, the processor sees exactly the flat map. */
  lemma WalkSeesFlatMap(mem: Memory, root: nat, used: set<nat>, vaddr: Word)
    requires Tree(mem, root, used) && |mem| <= MAX_FRAMES
    ensures Walk(mem, root, vaddr) == Translate(Flat(mem, root), vaddr)
  {
    WalkOfTree(mem, root, used, vaddr);
    TranslateIs(mem, root, vaddr);
  }

  /** An address on a page that is mapped to `frame` leads there. */
  lemma WalkToFrame(mem: Memory, root: nat, used: set<nat>, vaddr: Word, frame: nat)
    requires Tree(mem, root, used) && |mem| <= MAX_FRAMES
    requires VpnOf(vaddr) in Flat(mem, root) && Base(Flat(mem, root)[VpnOf(vaddr)]) == frame
    ensures Walk(mem, root, vaddr) == Some(4096 * frame + vaddr % 4096)
  {
    WalkSeesFlatMap(mem, root, used, vaddr);
    TranslateToFrame(Flat(mem, root), vaddr, frame);
  }

  lemma TranslateToFrame(flat: map<nat, Word>, vaddr: Word, frame: nat)
    requires VpnOf(vaddr) in flat && Base(flat[VpnOf(vaddr)]) == frame
    ensures Translate(flat, vaddr) == Some(4096 * frame + vaddr % 4096)
  {
  }

  /** The entry that a walk ends in is that of the leaf path. */
  lemma WalkOfTree(mem: Memory, root: nat, used: set<nat>, vaddr: Word)
    requires Tree(mem, root, used) && |mem| <= MAX_FRAMES
    ensures var e := EntryAt(mem, root, LeafPath(VpnOf(vaddr)));
            Walk(mem, root, vaddr) == if Present(e) then Some(Base(e) * 4096 + vaddr % 4096) else None
  {
    LeafPathOfAddress(vaddr);
    LevelsOfTree(mem, root, used, vaddr / 0x80_0000_0000 % 512, vaddr / 0x4000_0000 % 512, vaddr / 0x20_0000 % 512,
                 vaddr / 0x1000 % 512);
  }

  lemma TranslateIs(mem: Memory, root: nat, vaddr: Word)
    ensures var e := EntryAt(mem, root, LeafPath(VpnOf(vaddr)));
            Translate(Flat(mem, root), vaddr) == if Present(e) then Some(Base(e) * 4096 + vaddr % 4096) else None
  {
  }

  lemma LevelsOfTree(mem: Memory, root: nat, used: set<nat>, a: int, b: int, c: int, d: int)
    requires Tree(mem, root, used) && |mem| <= MAX_FRAMES && 0 <= a < 512 && 0 <= b < 512 && 0 <= c < 512
    ensures var e := EntryAt(mem, root, Step(Step(Step(Step(Root, a), b), c), d));
            Levels(mem, root, a, b, c, d) == if Present(e) then Page4K(e) else NotPresent
  {
    PathsInRange(a, b, c);
    LinksOfTree(mem, root, used, Step(Root, a));
    LinksOfTree(mem, root, used, Step(Step(Root, a), b));
    LinksOfTree(mem, root, used, Step(Step(Step(Root, a), b), c));
    LevelsOfPath(mem, root, a, b, c, d);
  }
}
