/**
 The three-level page tables of arch/riscv/mm/pmap.cc (Sv39, section 4.4 of the RISC-V Privileged
 Architecture manual, version 20211203), for 4 KB leaves. Memory is a map from page frames to
 tables of 512 words.
 */
module Sv39 {
  import opened Distinct
  import opened Options
  import opened Basics

  type Word = nat
  type Frame = nat
  type Table = seq<Word>

  const ENTRIES: nat := 512
  /** Pages below 2^39. */
  const PAGES: nat := 0x8000000
  /** Frames below 2^56. */
  const FRAMES: nat := 0x1000_0000_0000

  // ----- Entries -----

  predicate IsValid(w: Word) { w % 2 == 1 }
  /** Any of R, W and X. */
  predicate IsLeaf(w: Word) { (w / 2) % 8 != 0 }
  predicate HasW(w: Word) { (w / 4) % 2 == 1 }
  predicate HasCow(w: Word) { (w / 256) % 2 == 1 }

  /** `pte_to_pa`, as a frame number. */
  function FrameOf(w: Word): (f: Frame)
    ensures f < FRAMES
  {
    (w / 1024) % FRAMES
  }

  /** `pa_to_pte` of a frame; the flags are below 2^10. */
  function Encode(f: Frame, flags: nat): Word { f * 1024 + flags }

  const V: nat := 1
  const W: nat := 4
  const COW: nat := 256

  /** `flags | PTE_V`. */
  function WithV(flags: nat): nat { if flags % 2 == 1 then flags else flags + V }

  /** `flags | PTE_A` and `flags | PTE_D`. */
  function WithA(flags: nat): nat { if (flags / 64) % 2 == 1 then flags else flags + 64 }
  function WithD(flags: nat): nat { if (flags / 128) % 2 == 1 then flags else flags + 128 }

  /** `perm | PTE_V | PTE_A | PTE_D`. */
  function Flags(perm: nat): nat { WithD(WithA(WithV(perm))) }

  /** `pte & ~PTE_W`, and `pte | PTE_COW`. */
  function WithoutW(w: Word): Word { if HasW(w) then w - W else w }
  function WithCow(w: Word): Word { if HasCow(w) then w else w + COW }

  function CowOf(w: Word): Word { WithCow(WithoutW(w)) }

  /** An entry gives back its frame and its flags. */
  lemma EncodeDecodes(f: Frame, flags: nat)
    requires f < FRAMES && flags < 1024
    ensures FrameOf(Encode(f, flags)) == f && Encode(f, flags) % 1024 == flags
    ensures IsValid(Encode(f, flags)) == IsValid(flags) && IsLeaf(Encode(f, flags)) == IsLeaf(flags)
  {
  }

  /** The frame number stands above ten flag bits. */
  lemma EntryLayout(f: Frame, flags: nat)
    requires f < FRAMES && flags < 1024
    ensures Encode(f, flags) / 1024 == f && FrameOf(Encode(f, flags)) == Encode(f, flags) / 1024
  {
    EncodeDecodes(f, flags);
  }

  lemma FlagsSpec(perm: nat)
    requires perm < 1024
    ensures Flags(perm) < 1024 && IsValid(Flags(perm)) && IsLeaf(Flags(perm)) == IsLeaf(perm)
    ensures WithV(perm) < 1024 && IsValid(WithV(perm)) && IsLeaf(WithV(perm)) == IsLeaf(perm)
  {
    hide WithA, WithD, IsValid, IsLeaf;
    WithVSpec(perm);
    WithASpec(WithV(perm));
    WithDSpec(WithA(WithV(perm)));
  }

  lemma WithVSpec(x: nat)
    requires x < 1024
    ensures WithV(x) < 1024 && IsValid(WithV(x)) && IsLeaf(WithV(x)) == IsLeaf(x)
  {
  }

  lemma WithASpec(x: nat)
    requires x < 1024
    ensures WithA(x) < 1024 && IsValid(WithA(x)) == IsValid(x) && IsLeaf(WithA(x)) == IsLeaf(x)
  {
    hide IsValid, IsLeaf;
    LowFlags(x);
    LowFlags(WithA(x));
    AddSixteens(x, 4);
    assert x < 1024 - 64 || (x / 64) % 2 == 1;
  }

  lemma WithDSpec(x: nat)
    requires x < 1024
    ensures WithD(x) < 1024 && IsValid(WithD(x)) == IsValid(x) && IsLeaf(WithD(x)) == IsLeaf(x)
  {
    hide IsValid, IsLeaf;
    LowFlags(x);
    LowFlags(WithD(x));
    AddSixteens(x, 8);
    assert x < 1024 - 128 || (x / 128) % 2 == 1;
  }

  lemma AddSixteens(x: nat, k: nat)
    ensures (x + 16 * k) % 16 == x % 16
  {
    assert x + 16 * k == 16 * (x / 16 + k) + x % 16;
    SixteenPlus(x / 16 + k, x % 16);
  }

  lemma LowFlags(x: nat)
    ensures IsValid(x) == IsValid(x % 16) && IsLeaf(x) == IsLeaf(x % 16)
  {
    var a, r := x / 16, x % 16;
    assert x == 16 * a + r && x / 2 == 8 * a + r / 2;
  }

  /** A copy-on-write entry keeps its frame, cannot be written, and is marked. */
  lemma CowSpec(w: Word)
    ensures FrameOf(CowOf(w)) == FrameOf(w) && IsValid(CowOf(w)) == IsValid(w)
    ensures !HasW(CowOf(w)) && HasCow(CowOf(w))
  {
    hide WithCow;
    var v := WithoutW(w);
    ClearedW(w);
    CowKeeps(v);
  }

  lemma ClearedW(w: Word)
    ensures var v := WithoutW(w); FrameOf(v) == FrameOf(w) && IsValid(v) == IsValid(w) && !HasW(v)
  {
    var a, b, r := w / 8, (w / 4) % 2, w % 4;
    assert w / 4 == 2 * a + b;
    assert w == 8 * a + 4 * b + r;
    ThreeParts(w, a, b, r);
    ThreeParts(WithoutW(w), a, 0, r);
  }

  lemma ThreeParts(x: Word, a: nat, b: nat, r: nat)
    requires b < 2 && r < 4 && x == 8 * a + 4 * b + r
    ensures HasW(x) == (b == 1) && IsValid(x) == IsValid(r) && FrameOf(x) == (a / 128) % FRAMES
  {
    assert x / 4 == 2 * a + b;
    assert x / 8 == a;
    assert x / 1024 == a / 128;
    EvenPlus(4 * a + 2 * b, r);
  }

  /** It is still seen as a leaf exactly when it can be read or executed. */
  lemma CowStaysLeaf(w: Word)
    ensures IsLeaf(CowOf(w)) <==> (w / 2) % 2 == 1 || (w / 8) % 2 == 1
  {
    hide WithCow, IsLeaf;
    var a, x := w / 16, w % 16;
    Nibble(w, a, x);
    var v := WithoutW(w);
    CowKeeps(v);
    SameNibble(CowOf(w), v);
    LowFlags(CowOf(w));
    NibbleLeaf(x);
  }

  lemma Nibble(w: Word, a: nat, x: nat)
    requires x < 16 && w == 16 * a + x
    ensures HasW(w) == HasW(x) && WithoutW(w) == 16 * a + WithoutW(x) && WithoutW(x) < 16 && WithoutW(w) % 16 == WithoutW(x)
    ensures (w / 2) % 2 == (x / 2) % 2 && (w / 8) % 2 == (x / 8) % 2
  {
    assert w / 4 == 2 * (2 * a) + x / 4 && w / 2 == 2 * (4 * a) + x / 2 && w / 8 == 2 * a + x / 8;
    EvenPlus(2 * a, x / 4);
    EvenPlus(4 * a, x / 2);
    EvenPlus(a, x / 8);
    NibbleW(x);
    assert WithoutW(w) == 16 * a + WithoutW(x);
    SixteenPlus(a, WithoutW(x));
  }

  lemma EvenPlus(k: nat, y: nat)
    ensures (2 * k + y) % 2 == y % 2
  {
  }

  lemma SixteenPlus(k: nat, y: nat)
    requires y < 16
    ensures (16 * k + y) % 16 == y
  {
  }

  lemma NibbleW(x: nat)
    requires x < 16
    ensures WithoutW(x) < 16
  {
  }

  lemma SameNibble(x: nat, y: nat)
    requires x % 256 == y % 256
    ensures x % 16 == y % 16
  {
    NibbleOfByte(x);
    NibbleOfByte(y);
  }

  lemma NibbleOfByte(x: nat)
    ensures x % 16 == (x % 256) % 16
  {
    var a, r := x / 256, x % 256;
    assert x == 16 * (16 * a + r / 16) + r % 16;
    SixteenPlus(16 * a + r / 16, r % 16);
  }

  lemma NibbleLeaf(x: nat)
    requires x < 16
    ensures IsLeaf(WithoutW(x)) <==> (x / 2) % 2 == 1 || (x / 8) % 2 == 1
  {
  }

  lemma CowKeeps(v: Word)
    ensures WithCow(v) / 512 == v / 512 && WithCow(v) % 256 == v % 256 && HasCow(WithCow(v))
    ensures FrameOf(WithCow(v)) == FrameOf(v) && HasW(WithCow(v)) == HasW(v) && IsValid(WithCow(v)) == IsValid(v)
  {
    var a, r := v / 512, v % 256;
    assert v == 512 * a + (if HasCow(v) then 256 else 0) + r;
    LowPart(v, a, if HasCow(v) then 1 else 0, r);
    LowPart(WithCow(v), a, 1, r);
  }

  lemma LowPart(x: Word, a: nat, b: nat, r: nat)
    requires b <= 1 && r < 256 && x == 512 * a + 256 * b + r
    ensures x / 512 == a && x % 256 == r && HasCow(x) == (b == 1) && FrameOf(x) == (a / 2) % FRAMES
    ensures HasW(x) == HasW(r) && IsValid(x) == IsValid(r)
  {
    assert x / 1024 == a / 2;
    assert x / 256 == 2 * a + b;
    assert x / 4 == 2 * (64 * a + 32 * b) + r / 4;
  }

  // ----- Indices -----

  /** `vpn`. */
  function Vpn(va: nat, level: nat): (i: nat)
    requires level < 3
    ensures i < ENTRIES
  {
    match level
    case 0 => (va / 0x1000) % ENTRIES
    case 1 => (va / 0x20_0000) % ENTRIES
    case 2 => (va / 0x4000_0000) % ENTRIES
  }

  /** The page that the indices of an address stand for. */
  function PageOf(va: nat): (p: nat)
    ensures p < PAGES
  {
    (va / PAGE) % PAGES
  }

  function Index(p: nat, level: nat): (i: nat)
    requires level < 3 && p < PAGES
    ensures i < ENTRIES
  {
    match level
    case 0 => p % ENTRIES
    case 1 => (p / ENTRIES) % ENTRIES
    case 2 => p / 0x4_0000
  }

  lemma VpnIsIndex(va: nat, level: nat)
    requires level < 3
    ensures Vpn(va, level) == Index(PageOf(va), level)
  {
    var q := va / PAGE;
    match level
    case 0 => LowBits(q, 1);
    case 1 =>
      assert va / 0x20_0000 == q / 0x200;
      LowBits(q, 0x200);
    case 2 =>
      assert va / 0x4000_0000 == q / 0x4_0000;
      LowBits(q, 0x4_0000);
  }

  /** An address below 2^39 is made of its three indices and its place in the page. */
  lemma AddressParts(va: nat)
    requires va < 0x80_0000_0000
    ensures va == Vpn(va, 2) * 0x4000_0000 + Vpn(va, 1) * 0x20_0000 + Vpn(va, 0) * 0x1000 + va % 0x1000
  {
    var q := va / 0x1000;
    assert va / 0x20_0000 == q / 0x200 && va / 0x4000_0000 == q / 0x200 / 0x200;
  }

  /** Nine bits of a page number do not depend on those above 2^27. */
  lemma LowBits(q: nat, d: nat)
    requires d == 1 || d == 0x200 || d == 0x4_0000
    ensures (q / d) % ENTRIES == ((q % PAGES) / d) % ENTRIES
    ensures d == 0x4_0000 ==> (q % PAGES) / d < ENTRIES
  {
    var h, r := q / PAGES, q % PAGES;
    assert q == h * 0x8000000 + r;
    if d == 0x200 { assert q / 0x200 == h * 0x4_0000 + r / 0x200; }
    if d == 0x4_0000 { assert q / 0x4_0000 == h * 0x200 + r / 0x4_0000; }
  }

  /** Addresses below 2^39 are told apart by page. */
  lemma PagesApart(va: nat, vb: nat)
    requires va < PAGES * PAGE && vb < PAGES * PAGE
    ensures PageOf(va) == PageOf(vb) <==> va / PAGE == vb / PAGE
  {
  }

  /** Addresses that differ by 2^39 are not told apart. */
  lemma PagesAlias(va: nat)
    ensures PageOf(va + PAGES * PAGE) == PageOf(va)
  {
  }

  lemma IndexUnique(p: nat, q: nat)
    requires p < PAGES && q < PAGES && Index(p, 2) == Index(q, 2) && Index(p, 1) == Index(q, 1) && Index(p, 0) == Index(q, 0)
    ensures p == q
  {
  }

  // ----- Tables -----

  datatype Pt = Pt(root: Frame, tables: map<Frame, Table>)

  /** The word at an index of a table; 0 if there is no such table. */
  function WordAt(s: Pt, f: Frame, i: nat): Word {
    if f in s.tables && i < |s.tables[f]| then s.tables[f][i] else 0
  }

  function Child(s: Pt, f: Frame, i: nat): Option<Frame> {
    if IsValid(WordAt(s, f, i)) then Some(FrameOf(WordAt(s, f, i))) else None
  }

  /** The table of a level that the walk for page `p` gets to. */
  function TableAt(s: Pt, p: nat, level: nat): Option<Frame>
    requires p < PAGES && level < 3
    decreases 3 - level
  {
    if level == 2 then Some(s.root)
    else match TableAt(s, p, level + 1)
         case None => None
         case Some(f) => Child(s, f, Index(p, level + 1))
  }

  /** The level-0 word for page `p`; 0 where the walk ends early. */
  function Entry(s: Pt, p: nat): Word
    requires p < PAGES
  {
    match TableAt(s, p, 0)
    case None => 0
    case Some(f) => WordAt(s, f, Index(p, 0))
  }

  /** The map that the tables stand for: the frame of each page that has a leaf. */
  function Mapped(s: Pt, p: nat): Option<Frame>
    requires p < PAGES
  {
    if IsValid(Entry(s, p)) && IsLeaf(Entry(s, p)) then Some(FrameOf(Entry(s, p))) else None
  }

  /** The one place that a table is pointed to from. */
  datatype Role = Root | Mid(i: nat) | Low(parent: Frame, j: nat)

  /** The tables form a tree: each is pointed to from one place, and nothing else is pointed to. */
  ghost predicate Tree(s: Pt, role: map<Frame, Role>) {
    && role.Keys == s.tables.Keys && s.root in role
    && (forall f :: f in role ==> Placed(s, role, f))
    && (forall f, i :: f in role && !role[f].Low? && Child(s, f, i).Some? ==> Points(s, role, f, i))
  }

  ghost predicate Placed(s: Pt, role: map<Frame, Role>, f: Frame)
    requires f in role
  {
    && f in s.tables && |s.tables[f]| == ENTRIES && f < FRAMES
    && match role[f]
       case Root => f == s.root
       case Mid(i) => i < ENTRIES && f != s.root && Child(s, s.root, i) == Some(f)
       case Low(m, j) => j < ENTRIES && f != s.root && m in role && role[m].Mid? && Child(s, m, j) == Some(f)
  }

  ghost predicate Points(s: Pt, role: map<Frame, Role>, f: Frame, i: nat)
    requires f in role && Child(s, f, i).Some?
  {
    var g := Child(s, f, i).value;
    !IsLeaf(WordAt(s, f, i)) && g in role && role[g] == if role[f].Root? then Mid(i) else Low(f, i)
  }

  /** Where the walk for a page gets to, it knows which tables it is in. */
  lemma Walk(s: Pt, role: map<Frame, Role>, p: nat)
    requires Tree(s, role) && p < PAGES
    ensures role[s.root] == Root && TableAt(s, p, 2) == Some(s.root)
    ensures TableAt(s, p, 1).Some? ==>
              TableAt(s, p, 1).value in role && role[TableAt(s, p, 1).value] == Mid(Index(p, 2))
    ensures TableAt(s, p, 0).Some? ==>
              && TableAt(s, p, 1).Some? && TableAt(s, p, 0).value in role
              && role[TableAt(s, p, 0).value] == Low(TableAt(s, p, 1).value, Index(p, 1))
  {
    hide Index, IsValid, IsLeaf, FrameOf, WordAt;
    assert Placed(s, role, s.root);
    if Child(s, s.root, Index(p, 2)).Some? {
      assert Points(s, role, s.root, Index(p, 2));
      var m := Child(s, s.root, Index(p, 2)).value;
      if Child(s, m, Index(p, 1)).Some? { assert Points(s, role, m, Index(p, 1)); }
    }
  }

  // ----- Writing a leaf -----

  function SetWord(s: Pt, f: Frame, i: nat, w: Word): Pt
    requires f in s.tables && i < |s.tables[f]|
  {
    var t: Table := s.tables[f][i := w];
    s.(tables := s.tables[f := t])
  }

  /** Writing a level-0 word changes the entry of one page and of no other. */
  lemma SetLeaf(s: Pt, role: map<Frame, Role>, p: nat, w: Word)
    requires Tree(s, role) && p < PAGES && TableAt(s, p, 0).Some?
    ensures var f := TableAt(s, p, 0).value;
            && f in s.tables && |s.tables[f]| == ENTRIES
            && Tree(SetWord(s, f, Index(p, 0), w), role)
            && Entry(SetWord(s, f, Index(p, 0), w), p) == w
            && forall q :: 0 <= q < PAGES && q != p ==> Entry(SetWord(s, f, Index(p, 0), w), q) == Entry(s, q)
  {
    hide Index, IsValid, IsLeaf, FrameOf;
    Walk(s, role, p);
    var f := TableAt(s, p, 0).value;
    assert Placed(s, role, f);
    var s' := SetWord(s, f, Index(p, 0), w);
    SameChildren(s, s', role, f);
    TableSame(s, s', role, f, p);
    forall q | 0 <= q < PAGES && q != p
      ensures Entry(s', q) == Entry(s, q)
    {
      TableSame(s, s', role, f, q);
      Walk(s, role, q);
      if TableAt(s, q, 0) == Some(f) && Index(q, 0) == Index(p, 0) { IndexUnique(p, q); }
    }
  }

  /** Only table `f`, of level 0, has changed. */
  ghost predicate OnlyLow(s: Pt, s': Pt, role: map<Frame, Role>, f: Frame) {
    && f in role && role[f].Low? && s'.root == s.root && s'.tables.Keys == s.tables.Keys
    && f in s.tables && |s'.tables[f]| == |s.tables[f]|
    && forall g :: g in s.tables && g != f ==> s'.tables[g] == s.tables[g]
  }

  lemma SameChildren(s: Pt, s': Pt, role: map<Frame, Role>, f: Frame)
    requires Tree(s, role) && OnlyLow(s, s', role, f)
    ensures Tree(s', role)
  {
    hide IsValid, IsLeaf, FrameOf;
    forall g, i: nat | g in role && !role[g].Low?
      ensures WordAt(s', g, i) == WordAt(s, g, i)
    {
    }
    forall g | g in role
      ensures Placed(s', role, g)
    {
      assert Placed(s, role, g);
      if role[g].Mid? { assert Placed(s, role, s.root); }
    }
    forall g, i | g in role && !role[g].Low? && Child(s', g, i).Some?
      ensures Points(s', role, g, i)
    {
      assert Points(s, role, g, i);
    }
  }

  lemma TableSame(s: Pt, s': Pt, role: map<Frame, Role>, f: Frame, p: nat)
    requires Tree(s, role) && OnlyLow(s, s', role, f) && p < PAGES
    ensures forall level :: 0 <= level < 3 ==> TableAt(s', p, level) == TableAt(s, p, level)
  {
    hide Index, IsValid, IsLeaf, FrameOf;
    Walk(s, role, p);
    assert TableAt(s', p, 1) == TableAt(s, p, 1);
    assert TableAt(s', p, 0) == TableAt(s, p, 0);
  }

  // ----- Adding a table -----

  function Zeros(): Table { seq(ENTRIES, _ => 0) }

  /** The new table `g`, empty, in the free slot `i` of table `f`. */
  function AddTable(s: Pt, f: Frame, i: nat, g: Frame): Pt
    requires f in s.tables && i < |s.tables[f]| && g != f
  {
    SetWord(s.(tables := s.tables[g := Zeros()]), f, i, Encode(g, V))
  }

  lemma NewWords(s: Pt, f: Frame, i: nat, g: Frame)
    requires f in s.tables && i < |s.tables[f]| && g !in s.tables && g < FRAMES
    ensures forall h, k: nat :: WordAt(AddTable(s, f, i, g), h, k) == if h == f && k == i then Encode(g, V) else WordAt(s, h, k)
    ensures forall h, k: nat :: !(h == f && k == i) ==> Child(AddTable(s, f, i, g), h, k) == Child(s, h, k)
    ensures Child(AddTable(s, f, i, g), f, i) == Some(g) && !IsLeaf(Encode(g, V))
    ensures forall k: nat :: Child(AddTable(s, f, i, g), g, k) == None
  {
    EncodeDecodes(g, V);
    assert IsValid(V) && !IsLeaf(V);
    hide Encode, FrameOf, IsLeaf;
  }

  lemma AddTableTree(s: Pt, role: map<Frame, Role>, f: Frame, i: nat, g: Frame)
    requires Tree(s, role) && f in role && !role[f].Low? && i < ENTRIES && Child(s, f, i).None?
    requires g !in s.tables && g < FRAMES
    ensures f in s.tables && |s.tables[f]| == ENTRIES
    ensures Tree(AddTable(s, f, i, g), role[g := if role[f].Root? then Mid(i) else Low(f, i)])
  {
    assert Placed(s, role, f);
    NewWords(s, f, i, g);
    var s', role' := AddTable(s, f, i, g), role[g := if role[f].Root? then Mid(i) else Low(f, i)];
    hide IsValid, IsLeaf, FrameOf, WordAt, Child, Encode;
    assert |s'.tables[g]| == ENTRIES;
    forall h | h in role'
      ensures Placed(s', role', h)
    {
      if h != g { assert Placed(s, role, h); }
    }
    forall h, k | h in role' && !role'[h].Low? && Child(s', h, k).Some?
      ensures Points(s', role', h, k)
    {
      if h != g && !(h == f && k == i) { assert Points(s, role, h, k); }
    }
  }

  /** A new table is empty, so no page's entry changes. */
  lemma AddTableEntries(s: Pt, role: map<Frame, Role>, f: Frame, i: nat, g: Frame, q: nat)
    requires Tree(s, role) && f in role && !role[f].Low? && i < ENTRIES && Child(s, f, i).None?
    requires g !in s.tables && g < FRAMES && q < PAGES
    ensures f in s.tables && |s.tables[f]| == ENTRIES
    ensures Entry(AddTable(s, f, i, g), q) == Entry(s, q)
  {
    assert Placed(s, role, f);
    NewWords(s, f, i, g);
    Walk(s, role, q);
    hide IsValid, IsLeaf, FrameOf, WordAt, Child, Encode, Index;
  }

  // ----- The code -----

  /** The entries of all pages but `p` are as they were. */
  ghost predicate SameBut(s: Pt, s': Pt, p: int) {
    forall q :: 0 <= q < PAGES && q != p ==> Entry(s', q) == Entry(s, q)
  }

  class Pmap {
    const root: Frame
    var tables: map<Frame, Table>
    ghost var role: map<Frame, Role>

    ghost function State(): Pt
      reads this
    {
      Pt(root, tables)
    }

    ghost predicate Valid()
      reads this
    {
      Tree(State(), role)
    }

    /** `create` with the page that the allocator hands out. */
    constructor (root: Frame)
      requires root < FRAMES
      ensures Valid() && this.root == root && tables.Keys == {root}
      ensures forall p :: 0 <= p < PAGES ==> Entry(State(), p) == 0
    {
      this.root := root;
      tables := map[root := Zeros()];
      role := map[root := Root];
      new;
      EmptyTree(root);
    }

    /** One word of a table. */
    method Write(f: Frame, i: nat, w: Word)
      requires f in tables && i < |tables[f]|
      modifies this`tables
      ensures State() == SetWord(old(State()), f, i, w)
    {
      var t: Table := tables[f][i := w];
      tables := tables[f := t];
    }

    /**
     `map` of one page. `mid` and `low` are what the allocator hands out if a table of level 1 or 0
     is missing.
     */
    method Map(va: nat, frame: Frame, perm: nat, mid: Option<Frame>, low: Option<Frame>) returns (ret: int)
      requires Valid() && frame < FRAMES && perm < 1024
      requires mid.Some? ==> mid.value !in tables && mid.value < FRAMES
      requires low.Some? ==> low.value !in tables && low.value < FRAMES
      requires mid.Some? && low.Some? ==> mid != low
      modifies this
      ensures Valid() && ret == if MissingTable(old(State()), PageOf(va), mid, low) then -12 else 0
      ensures SameBut(old(State()), State(), if ret == 0 then PageOf(va) else -1)
      ensures ret == 0 ==> Entry(State(), PageOf(va)) == Encode(frame, Flags(perm))
      ensures ret == 0 && IsLeaf(perm) ==> Mapped(State(), PageOf(va)) == Some(frame)
    {
      hide Tree, Entry, Index, Encode, Flags, IsLeaf, IsValid, FrameOf;
      ghost var p := PageOf(va);
      var table, level := root, 2;
      while level > 0
        invariant 0 <= level <= 2 && Valid() && TableAt(State(), p, level) == Some(table)
        invariant SameBut(old(State()), State(), -1)
        invariant level == 2 ==> State() == old(State())
        invariant level == 1 ==> forall g :: g in tables ==> g in old(tables) || Some(g) == mid
        invariant level == 1 ==> (TableAt(old(State()), p, 1).None? ==> mid.Some? && TableAt(State(), p, 0).None?)
        invariant level == 1 && TableAt(old(State()), p, 1).Some? ==> State() == old(State())
        invariant level == 0 ==> !MissingTable(old(State()), p, mid, low)
      {
        VpnIsIndex(va, level);
        WalkTable(State(), role, p, level);
        var idx := Vpn(va, level);
        if !IsValid(tables[table][idx]) {
          var page := if level == 2 then mid else low;
          if page.None? {
            return -12;
          }
          AddTableWalk(State(), role, p, level, page.value);
          ghost var s := State();
          role := role[page.value := if level == 2 then Mid(idx) else Low(table, idx)];
          tables := tables[page.value := Zeros()];
          Write(table, idx, Encode(page.value, V));
          assert State() == AddTable(s, table, idx, page.value);
        }
        table := FrameOf(tables[table][idx]);
        level := level - 1;
      }
      VpnIsIndex(va, 0);
      SetLeaf(State(), role, p, Encode(frame, Flags(perm)));
      Write(table, Vpn(va, 0), Encode(frame, Flags(perm)));
      LeafMapped(State(), p, frame, perm);
      return 0;
    }

    /** `unmap`. */
    method Unmap(va: nat)
      requires Valid()
      modifies this
      ensures Valid() && tables.Keys == old(tables.Keys)
      ensures Entry(State(), PageOf(va)) == 0 && SameBut(old(State()), State(), PageOf(va))
    {
      hide Tree, Index, IsLeaf, IsValid, FrameOf;
      ghost var p := PageOf(va);
      var table, level := root, 2;
      while level > 0
        invariant 0 <= level <= 2 && TableAt(State(), p, level) == Some(table)
        invariant State() == old(State()) && role == old(role)
      {
        VpnIsIndex(va, level);
        WalkTable(State(), role, p, level);
        var idx := Vpn(va, level);
        if !IsValid(tables[table][idx]) {
          NoTable(State(), p, level);
          return;
        }
        table := FrameOf(tables[table][idx]);
        level := level - 1;
      }
      VpnIsIndex(va, 0);
      SetLeaf(State(), role, p, 0);
      Write(table, Vpn(va, 0), 0);
    }

    /**
     The loop that `lookup`, `protect`, `is_cow` and `make_cow` share: walk down until a leaf. It is
     at level 0, and the walk gets there if and only if the page is mapped.
     */
    method FindLeaf(va: nat) returns (r: Option<Frame>)
      requires Valid()
      ensures r.Some? == Mapped(State(), PageOf(va)).Some?
      ensures r.Some? ==> && TableAt(State(), PageOf(va), 0) == r
                          && r.value in tables && |tables[r.value]| == ENTRIES
                          && tables[r.value][Vpn(va, 0)] == Entry(State(), PageOf(va))
    {
      hide Tree, Index, IsLeaf, IsValid, FrameOf;
      ghost var p := PageOf(va);
      var table, level := root, 2;
      while level >= 0
        invariant -1 <= level <= 2
        invariant level >= 0 ==> TableAt(State(), p, level) == Some(table)
        invariant level < 0 ==> Mapped(State(), p).None?
      {
        VpnIsIndex(va, level);
        WalkTable(State(), role, p, level);
        var pte := tables[table][Vpn(va, level)];
        if !IsValid(pte) {
          NoTable(State(), p, level);
          return None;
        }
        if IsLeaf(pte) {
          LeafIsLow(State(), role, p, level);
          return Some(table);
        }
        table := FrameOf(pte);
        level := level - 1;
      }
      return None;
    }

    /** `lookup`. */
    method Lookup(va: nat) returns (r: Option<Frame>)
      requires Valid()
      ensures r == Mapped(State(), PageOf(va))
    {
      hide Tree, IsLeaf, IsValid;
      var table := FindLeaf(va);
      return if table.None? then None else Some(FrameOf(tables[table.value][Vpn(va, 0)]));
    }

    /** `protect`. */
    method Protect(va: nat, perm: nat) returns (ret: int)
      requires Valid() && perm < 1024
      modifies this
      ensures Valid() && tables.Keys == old(tables.Keys)
      ensures ret == if Mapped(old(State()), PageOf(va)).Some? then 0 else -14
      ensures ret != 0 ==> State() == old(State())
      ensures SameBut(old(State()), State(), PageOf(va))
      ensures ret == 0 ==> Entry(State(), PageOf(va)) == Encode(FrameOf(Entry(old(State()), PageOf(va))), WithV(perm))
      ensures ret == 0 && IsLeaf(perm) ==> Mapped(State(), PageOf(va)) == Mapped(old(State()), PageOf(va))
    {
      hide Tree, IsLeaf, IsValid, FrameOf, Encode, WithV;
      var table := FindLeaf(va);
      if table.None? {
        return -14;
      }
      VpnIsIndex(va, 0);
      var frame := FrameOf(tables[table.value][Vpn(va, 0)]);
      SetLeaf(State(), role, PageOf(va), Encode(frame, WithV(perm)));
      Write(table.value, Vpn(va, 0), Encode(frame, WithV(perm)));
      ProtectedMapped(State(), PageOf(va), frame, perm);
      return 0;
    }

    /** `is_cow`. */
    method IsCow(va: nat) returns (r: bool)
      requires Valid()
      ensures r == (Mapped(State(), PageOf(va)).Some? && HasCow(Entry(State(), PageOf(va))))
    {
      hide Tree, IsLeaf, IsValid;
      var table := FindLeaf(va);
      return table.Some? && HasCow(tables[table.value][Vpn(va, 0)]);
    }

    /** `make_cow`. */
    method MakeCow(va: nat) returns (ret: int)
      requires Valid()
      modifies this
      ensures Valid() && tables.Keys == old(tables.Keys)
      ensures ret == if Mapped(old(State()), PageOf(va)).Some? then 0 else -14
      ensures SameBut(old(State()), State(), PageOf(va))
      ensures Entry(State(), PageOf(va)) == (if ret == 0 then CowOf(Entry(old(State()), PageOf(va))) else Entry(old(State()), PageOf(va)))
    {
      hide Tree, IsLeaf, IsValid, FrameOf, CowOf;
      var table := FindLeaf(va);
      if table.None? {
        return -14;
      }
      VpnIsIndex(va, 0);
      var pte := CowOf(tables[table.value][Vpn(va, 0)]);
      SetLeaf(State(), role, PageOf(va), pte);
      Write(table.value, Vpn(va, 0), pte);
      return 0;
    }

    /** `destroy`: the frames that it frees, in order. They are the table pages, each once. */
    method Destroy() returns (freed: seq<Frame>)
      requires Valid()
      ensures Once(freed) && forall f :: f in freed <==> f in tables
    {
      hide Tree, Freed, IsValid, IsLeaf, FrameOf;
      freed := [];
      FreedNone(role);
      TreeRoot(State(), role);
      var l2, i := tables[root], 0;
      while i < ENTRIES
        invariant i <= ENTRIES && Once(freed) && Freed(role, freed, i, 0)
      {
        if IsValid(l2[i]) {
          RootPoints(State(), role, i);
          if !IsLeaf(l2[i]) {
            var l1pa := FrameOf(l2[i]);
            var l1, j := tables[l1pa], 0;
            while j < ENTRIES
              invariant j <= ENTRIES && Once(freed) && Freed(role, freed, i, j)
            {
              FreeLow(State(), role, freed, i, j, l1pa);
              if IsValid(l1[j]) {
                if !IsLeaf(l1[j]) {
                  freed := freed + [FrameOf(l1[j])];
                }
              }
              j := j + 1;
            }
            FreeMid(State(), role, freed, i);
            freed := freed + [l1pa];
          }
        } else {
          FreeMid(State(), role, freed, i);
        }
        i := i + 1;
      }
      FreedAll(State(), role, freed);
      freed := freed + [root];
    }
  }

  predicate MissingTable(s: Pt, p: nat, mid: Option<Frame>, low: Option<Frame>)
    requires p < PAGES
  {
    (TableAt(s, p, 1).None? && mid.None?) || (TableAt(s, p, 0).None? && low.None?)
  }

  lemma LeafMapped(s: Pt, p: nat, f: Frame, perm: nat)
    requires p < PAGES && f < FRAMES && perm < 1024 && Entry(s, p) == Encode(f, Flags(perm))
    ensures IsLeaf(perm) ==> Mapped(s, p) == Some(f)
  {
    FlagsSpec(perm);
    EncodeDecodes(f, Flags(perm));
  }

  lemma EmptyTree(root: Frame)
    requires root < FRAMES
    ensures var s := Pt(root, map[root := Zeros()]);
            Tree(s, map[root := Root]) && forall p :: 0 <= p < PAGES ==> Entry(s, p) == 0
  {
    var s, role := Pt(root, map[root := Zeros()]), map[root := Root];
    assert forall f: Frame, i: nat :: WordAt(s, f, i) == 0;
    assert Placed(s, role, root);
  }

  lemma WalkTable(s: Pt, role: map<Frame, Role>, p: nat, level: nat)
    requires Tree(s, role) && p < PAGES && level < 3 && TableAt(s, p, level).Some?
    ensures var f := TableAt(s, p, level).value;
            && f in s.tables && |s.tables[f]| == ENTRIES && f in role && (level > 0 ==> !role[f].Low?)
            && role[f] == (match level case 2 => Root case 1 => Mid(Index(p, 2)) case _ => role[f])
  {
    Walk(s, role, p);
    assert Placed(s, role, TableAt(s, p, level).value);
  }

  /** A missing table, added where the walk for page `p` stops. */
  lemma AddTableWalk(s: Pt, role: map<Frame, Role>, p: nat, level: nat, g: Frame)
    requires Tree(s, role) && p < PAGES && 0 < level < 3 && TableAt(s, p, level).Some? && TableAt(s, p, level - 1).None?
    requires g !in s.tables && g < FRAMES
    ensures var f, i := TableAt(s, p, level).value, Index(p, level);
            && f in s.tables && |s.tables[f]| == ENTRIES && f in role && f != g
            && Tree(AddTable(s, f, i, g), role[g := if level == 2 then Mid(i) else Low(f, i)])
            && SameBut(s, AddTable(s, f, i, g), -1)
            && TableAt(AddTable(s, f, i, g), p, level) == Some(f)
            && TableAt(AddTable(s, f, i, g), p, level - 1) == Some(g)
            && (level == 2 ==> TableAt(AddTable(s, f, i, g), p, 0).None?)
  {
    hide Tree, Entry;
    WalkTable(s, role, p, level);
    var f, i := TableAt(s, p, level).value, Index(p, level);
    AddTableTree(s, role, f, i, g);
    forall q | 0 <= q < PAGES
      ensures Entry(AddTable(s, f, i, g), q) == Entry(s, q)
    {
      AddTableEntries(s, role, f, i, g, q);
    }
    NewWords(s, f, i, g);
    if level == 1 {
      WalkTable(s, role, p, 2);
      Walk(s, role, p);
    }
  }

  lemma NoTable(s: Pt, p: nat, level: nat)
    requires p < PAGES && level < 3 && TableAt(s, p, level).Some?
    requires !IsValid(WordAt(s, TableAt(s, p, level).value, Index(p, level)))
    ensures Mapped(s, p).None? && (level > 0 ==> Entry(s, p) == 0)
  {
    if level == 2 { assert TableAt(s, p, 1).None? && TableAt(s, p, 0).None?; }
  }

  lemma LeafIsLow(s: Pt, role: map<Frame, Role>, p: nat, level: nat)
    requires Tree(s, role) && p < PAGES && level < 3 && TableAt(s, p, level).Some?
    requires var w := WordAt(s, TableAt(s, p, level).value, Index(p, level)); IsValid(w) && IsLeaf(w)
    ensures level == 0
  {
    hide Index, IsValid, IsLeaf, FrameOf;
    Walk(s, role, p);
    var f := TableAt(s, p, level).value;
    assert Child(s, f, Index(p, level)).Some?;
  }

  lemma ProtectedMapped(s: Pt, p: nat, f: Frame, perm: nat)
    requires p < PAGES && f < FRAMES && perm < 1024 && Entry(s, p) == Encode(f, WithV(perm))
    ensures IsLeaf(perm) ==> Mapped(s, p) == Some(f)
  {
    FlagsSpec(perm);
    EncodeDecodes(f, WithV(perm));
  }

  // ----- Freeing the tables -----

  /** Table `f` is one that the two loops have freed when they are at `i` and `j`. */
  predicate Passed(role: map<Frame, Role>, f: Frame, i: nat, j: nat)
    requires f in role
  {
    match role[f]
    case Root => false
    case Mid(k) => k < i
    case Low(m, l) => m in role && role[m].Mid? && (role[m].i < i || (role[m].i == i && l < j))
  }

  ghost predicate Freed(role: map<Frame, Role>, freed: seq<Frame>, i: nat, j: nat) {
    forall f :: f in freed <==> f in role && Passed(role, f, i, j)
  }

  lemma FreedNone(role: map<Frame, Role>)
    ensures Freed(role, [], 0, 0)
  {
  }

  lemma TreeRoot(s: Pt, role: map<Frame, Role>)
    requires Tree(s, role)
    ensures s.root in s.tables && |s.tables[s.root]| == ENTRIES
  {
    assert Placed(s, role, s.root);
  }

  lemma RootPoints(s: Pt, role: map<Frame, Role>, i: nat)
    requires Tree(s, role) && IsValid(WordAt(s, s.root, i))
    ensures !IsLeaf(WordAt(s, s.root, i))
    ensures var g := FrameOf(WordAt(s, s.root, i)); g in role && role[g] == Mid(i) && g in s.tables && |s.tables[g]| == ENTRIES
  {
    assert Placed(s, role, s.root);
    assert Points(s, role, s.root, i);
    assert Placed(s, role, FrameOf(WordAt(s, s.root, i)));
  }

  /** One turn of the inner loop. */
  lemma FreeLow(s: Pt, role: map<Frame, Role>, freed: seq<Frame>, i: nat, j: nat, m: Frame)
    requires Tree(s, role) && Once(freed) && Freed(role, freed, i, j) && m in role && role[m] == Mid(i) && j < ENTRIES
    ensures var w := WordAt(s, m, j);
            if IsValid(w) then !IsLeaf(w) && Once(freed + [FrameOf(w)]) && Freed(role, freed + [FrameOf(w)], i, j + 1)
            else Freed(role, freed, i, j + 1)
  {
    hide IsValid, IsLeaf, FrameOf, WordAt;
    var w := WordAt(s, m, j);
    if IsValid(w) { assert Points(s, role, m, j); }
    forall f | f in role && Passed(role, f, i, j + 1) && !Passed(role, f, i, j)
      ensures Child(s, m, j) == Some(f)
    {
      assert Placed(s, role, f) && Placed(s, role, role[f].parent) && Placed(s, role, m);
    }
  }

  /** The end of one turn of the outer loop. */
  lemma FreeMid(s: Pt, role: map<Frame, Role>, freed: seq<Frame>, i: nat)
    requires Tree(s, role) && Once(freed) && i < ENTRIES
    requires Freed(role, freed, i, if IsValid(WordAt(s, s.root, i)) then ENTRIES else 0)
    ensures var w := WordAt(s, s.root, i);
            if IsValid(w) then Once(freed + [FrameOf(w)]) && Freed(role, freed + [FrameOf(w)], i + 1, 0)
            else Freed(role, freed, i + 1, 0)
  {
    hide IsValid, IsLeaf, FrameOf, WordAt;
    var w := WordAt(s, s.root, i);
    assert Placed(s, role, s.root);
    if IsValid(w) { assert Points(s, role, s.root, i); }
    forall f | f in role && role[f] == Mid(i)
      ensures IsValid(w) && FrameOf(w) == f
    {
      assert Placed(s, role, f);
    }
    forall f | f in role && role[f].Low?
      ensures role[f].parent in role && role[role[f].parent].Mid? && role[f].j < ENTRIES
    {
      assert Placed(s, role, f);
    }
  }

  lemma FreedAll(s: Pt, role: map<Frame, Role>, freed: seq<Frame>)
    requires Tree(s, role) && Once(freed) && Freed(role, freed, ENTRIES, 0)
    ensures Once(freed + [s.root]) && forall f :: f in freed + [s.root] <==> f in s.tables
  {
    assert Placed(s, role, s.root);
    forall f | f in role && f != s.root
      ensures Passed(role, f, ENTRIES, 0)
    {
      assert Placed(s, role, f);
      if role[f].Low? { assert Placed(s, role, role[f].parent); }
    }
  }
}
