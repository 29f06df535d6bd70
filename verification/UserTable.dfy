/**
 The page table of a user space: the radix tables of `Sv39`, as the calls of mm/vma.cc use them, are
 the finite map from pages to entries that `AddressSpace` reasons about.
 */
module UserTable {
  import opened Options
  import opened Basics
  import opened Sv39
  import opened VmaList
  import A = AddressSpace
  import VmSteps

  // ----- Entries -----

  predicate HasR(w: Word) { (w / 2) % 2 == 1 }
  predicate HasX(w: Word) { (w / 8) % 2 == 1 }

  predicate HasU(w: Word) { (w / 16) % 2 == 1 }
  predicate HasA(w: Word) { (w / 64) % 2 == 1 }
  predicate HasD(w: Word) { (w / 128) % 2 == 1 }

  function ReadPte(w: Word): A.Pte { A.Pte(FrameOf(w), HasR(w), HasW(w), HasX(w), HasU(w), HasA(w) && HasD(w), HasCow(w)) }

  /** `vm_perm_to_pte`: V, A and D, and what the area grants. */
  function PermFlags(perm: Perm): nat {
    193 + (if perm.r then 2 else 0) + (if perm.w then 4 else 0) + (if perm.x then 8 else 0) + (if perm.u then 16 else 0)
  }

  /** The flags of a page, with W taken away and COW set where a page that may be written is shared. */
  function EntryFlags(perm: Perm, shared: bool): nat {
    if shared && perm.w then PermFlags(perm) - W + COW else PermFlags(perm)
  }

  function NewPte(f: Frame, perm: Perm, shared: bool): A.Pte {
    if shared then A.Share(f, perm) else A.Own(f, perm)
  }

  /** The word that is written reads as the entry that is meant. */
  lemma EntryReads(f: Frame, perm: Perm, shared: bool)
    requires f < FRAMES
    ensures var g := EntryFlags(perm, shared);
            && g < 1024 && Flags(g) == g && WithV(g) == g && IsValid(Encode(f, g))
            && ReadPte(Encode(f, g)) == NewPte(f, perm, shared)
  {
    hide HasR, HasW, HasX, HasU, HasA, HasD, HasCow, IsValid, IsLeaf, FrameOf, Encode, EntryFlags, Flags, WithV;
    var g := EntryFlags(perm, shared);
    FlagBits(perm, shared);
    EncodeBits(f, g);
    EncodeDecodes(f, g);
  }

  lemma FlagBits(perm: Perm, shared: bool)
    ensures var g := EntryFlags(perm, shared);
            && g < 1024 && Flags(g) == g && WithV(g) == g && IsValid(g)
            && HasR(g) == perm.r && HasX(g) == perm.x && HasU(g) == perm.u && HasA(g) && HasD(g)
            && HasW(g) == (perm.w && !shared) && HasCow(g) == (perm.w && shared)
  {
  }

  lemma EncodeBits(f: Frame, g: nat)
    requires g < 1024
    ensures var w := Encode(f, g);
            && HasR(w) == HasR(g) && HasW(w) == HasW(g) && HasX(w) == HasX(g) && HasCow(w) == HasCow(g)
            && HasU(w) == HasU(g) && HasA(w) == HasA(g) && HasD(w) == HasD(g)
  {
    var w := Encode(f, g);
    assert w / 2 == 2 * (256 * f) + g / 2 && w / 4 == 2 * (128 * f) + g / 4;
    assert w / 8 == 2 * (64 * f) + g / 8 && w / 256 == 2 * (2 * f) + g / 256;
    assert w / 16 == 2 * (32 * f) + g / 16 && w / 64 == 2 * (8 * f) + g / 64 && w / 128 == 2 * (4 * f) + g / 128;
    EvenPlus(256 * f, g / 2);
    EvenPlus(128 * f, g / 4);
    EvenPlus(64 * f, g / 8);
    EvenPlus(2 * f, g / 256);
    EvenPlus(32 * f, g / 16);
    EvenPlus(8 * f, g / 64);
    EvenPlus(4 * f, g / 128);
  }

  /** `make_cow` on the word is `MakeCow` on the entry. */
  lemma CowReads(w: Word)
    ensures ReadPte(CowOf(w)) == ReadPte(w).MakeCow() && IsValid(CowOf(w)) == IsValid(w)
  {
    hide CowOf, WithoutW, WithCow, HasR, HasX, HasW, HasU, HasA, HasD, HasCow, FrameOf, IsValid;
    CowSpec(w);
    CowKeepsRX(w);
    CowKeepsRest(w);
  }

  lemma CowKeepsRX(w: Word)
    ensures HasR(CowOf(w)) == HasR(w) && HasX(CowOf(w)) == HasX(w)
  {
    hide WithCow, WithoutW;
    var x, v, u := w % 16, WithoutW(w), CowOf(w);
    Nibble(w, w / 16, x);
    CowKeeps(v);
    SameNibble(u, v);
    Nibble(u, u / 16, WithoutW(x));
    NibbleRX(x);
  }

  lemma CowKeepsRest(w: Word)
    ensures HasU(CowOf(w)) == HasU(w) && HasA(CowOf(w)) == HasA(w) && HasD(CowOf(w)) == HasD(w)
  {
    hide WithCow, HasU, HasA, HasD;
    var v, u := WithoutW(w), CowOf(w);
    CowKeeps(v);
    ByteBits(u);
    ByteBits(v);
    HighBits(w);
  }

  /** The bits U, A and D are in the low byte. */
  lemma ByteBits(x: Word)
    ensures HasU(x) == HasU(x % 256) && HasA(x) == HasA(x % 256) && HasD(x) == HasD(x % 256)
  {
    var a, r := x / 256, x % 256;
    assert x == 256 * a + r;
    assert x / 16 == 2 * (8 * a) + r / 16 && x / 64 == 2 * (2 * a) + r / 64 && x / 128 == 2 * a + r / 128;
    EvenPlus(8 * a, r / 16);
    EvenPlus(2 * a, r / 64);
    EvenPlus(a, r / 128);
  }

  /** Taking W away does not reach them. */
  lemma HighBits(w: Word)
    ensures var v := WithoutW(w); HasU(v) == HasU(w) && HasA(v) == HasA(w) && HasD(v) == HasD(w)
  {
    var v, x := WithoutW(w), w % 16;
    Nibble(w, w / 16, x);
    assert v == 16 * (w / 16) + WithoutW(x) && WithoutW(x) < 16;
    assert v / 16 == w / 16;
    assert v / 64 == (v / 16) / 4 && w / 64 == (w / 16) / 4;
    assert v / 128 == (v / 16) / 8 && w / 128 == (w / 16) / 8;
  }

  lemma NibbleRX(x: nat)
    requires x < 16
    ensures (WithoutW(x) / 2) % 2 == (x / 2) % 2 && (WithoutW(x) / 8) % 2 == (x / 8) % 2
  {
  }

  lemma SeenIsLeaf(w: Word)
    ensures IsLeaf(w) == ReadPte(w).Seen()
  {
    var a, b := w / 16, w % 16;
    Nibble(w, a, b);
    LowFlags(w);
    hide FrameOf, HasCow, HasU, HasA, HasD;
    assert HasR(w) == HasR(b) && HasW(w) == HasW(b) && HasX(w) == HasX(b);
    assert IsLeaf(b) == (HasR(b) || HasW(b) || HasX(b));
  }

  // ----- Tables -----

  /** The pages with a valid entry. */
  ghost function TableOf(s: Pt): map<nat, A.Pte> {
    map p: nat | p < PAGES && IsValid(Entry(s, p)) :: ReadPte(Entry(s, p))
  }

  lemma TableSet(s: Pt, s': Pt, p: nat)
    requires p < PAGES && SameBut(s, s', p)
    ensures TableOf(s') == if IsValid(Entry(s', p)) then TableOf(s)[p := ReadPte(Entry(s', p))] else TableOf(s) - {p}
  {
    hide Entry, ReadPte, IsValid;
  }

  lemma TableAs(s: Pt, s': Pt)
    requires SameBut(s, s', -1)
    ensures TableOf(s') == TableOf(s)
  {
    hide Entry, ReadPte, IsValid;
  }

  lemma TableHas(s: Pt, p: nat)
    requires p < PAGES
    ensures p in TableOf(s) <==> IsValid(Entry(s, p))
    ensures p in TableOf(s) ==> TableOf(s)[p] == ReadPte(Entry(s, p))
    ensures Mapped(s, p) == if p in TableOf(s) && TableOf(s)[p].Seen() then Some(TableOf(s)[p].frame) else None
  {
    hide Entry, IsValid, IsLeaf, FrameOf, HasR, HasW, HasX, HasU, HasA, HasD, HasCow;
    SeenIsLeaf(Entry(s, p));
  }

  /** A new root has no entries. */
  lemma EmptyTable(s: Pt)
    requires forall p :: 0 <= p < PAGES ==> Entry(s, p) == 0
    ensures TableOf(s) == map[]
  {
    hide Entry, ReadPte;
  }

  /** A page that has an entry has its tables. */
  lemma TablesThere(s: Pt, p: nat, mid: Option<Frame>, low: Option<Frame>)
    requires p < PAGES && p in TableOf(s)
    ensures !MissingTable(s, p, mid, low)
  {
    hide ReadPte, FrameOf;
  }

  lemma PageBelow(va: nat)
    requires va < PAGES * PAGE
    ensures PageOf(va) == va / PAGE < PAGES
  {
  }

  /** `create`: the page table of a new space, on the page that the allocator hands out. */
  method NewTable(root: Frame) returns (m: Pmap)
    requires root < FRAMES
    ensures fresh(m) && m.Valid() && m.tables.Keys == {root} && TableOf(m.State()) == map[]
  {
    hide TableOf, Entry;
    m := new Pmap(root);
    EmptyTable(m.State());
  }

  /** `lookup` of a user address: the entry's frame, if it is seen. */
  method LookupPage(m: Pmap, va: nat) returns (r: Option<Frame>)
    requires m.Valid() && va < PAGES * PAGE
    ensures var t, p := TableOf(m.State()), va / PAGE;
            r == if p in t && t[p].Seen() then Some(t[p].frame) else None
  {
    hide TableOf, Mapped;
    PageBelow(va);
    TableHas(m.State(), va / PAGE);
    r := m.Lookup(va);
  }

  /** `is_cow` of a user address. */
  method IsCowPage(m: Pmap, va: nat) returns (r: bool)
    requires m.Valid() && va < PAGES * PAGE
    ensures var t, p := TableOf(m.State()), va / PAGE; r <==> p in t && t[p].Seen() && t[p].cow
  {
    hide TableOf, Mapped, HasCow;
    PageBelow(va);
    TableHas(m.State(), va / PAGE);
    r := m.IsCow(va);
  }

  /** `map` of a page with the permissions of its area, as a fault or a fork does it. */
  method MapPage(m: Pmap, va: nat, f: Frame, perm: Perm, shared: bool, mid: Option<Frame>, low: Option<Frame>) returns (ret: int)
    requires m.Valid() && va < PAGES * PAGE && f < FRAMES
    requires mid.Some? ==> mid.value !in m.tables && mid.value < FRAMES
    requires low.Some? ==> low.value !in m.tables && low.value < FRAMES
    requires mid.Some? && low.Some? ==> mid != low
    modifies m
    ensures m.Valid() && (ret == 0 || ret == -12)
    ensures va / PAGE in old(TableOf(m.State())) || (mid.Some? && low.Some?) ==> ret == 0
    ensures var t := old(TableOf(m.State()));
            TableOf(m.State()) == if ret == 0 then t[va / PAGE := NewPte(f, perm, shared)] else t
  {
    hide TableOf, Entry, Encode, Flags, EntryFlags, ReadPte, NewPte, SameBut, IsLeaf;
    PageBelow(va);
    EntryReads(f, perm, shared);
    ghost var s := m.State();
    if va / PAGE in TableOf(s) { TablesThere(s, va / PAGE, mid, low); }
    ret := m.Map(va, f, EntryFlags(perm, shared), mid, low);
    if ret == 0 { TableSet(s, m.State(), va / PAGE); } else { TableAs(s, m.State()); }
  }

  /** `unmap` of a user address. */
  method UnmapPage(m: Pmap, va: nat)
    requires m.Valid() && va < PAGES * PAGE
    modifies m
    ensures m.Valid() && TableOf(m.State()) == old(TableOf(m.State())) - {va / PAGE}
  {
    hide TableOf, Entry, ReadPte, SameBut;
    PageBelow(va);
    ghost var s := m.State();
    m.Unmap(va);
    TableSet(s, m.State(), va / PAGE);
  }

  /** `protect` as `vmm_protect_user` uses it: a COW mark survives as long as W is granted. */
  method ProtectPage(m: Pmap, va: nat, perm: Perm) returns (ret: int)
    requires m.Valid() && va < PAGES * PAGE
    modifies m
    ensures m.Valid()
    ensures var t, p := old(TableOf(m.State())), va / PAGE;
            if p in t && t[p].Seen() then ret == 0 && TableOf(m.State()) == t[p := VmSteps.ProtectPte(t[p], perm)]
            else ret == -14 && TableOf(m.State()) == t
  {
    hide TableOf, Entry, Encode, WithV, Flags, EntryFlags, FrameOf, HasR, HasW, HasX, HasU, HasA, HasD, HasCow, IsValid, IsLeaf, Mapped, SameBut;
    PageBelow(va);
    ghost var s := m.State();
    TableHas(s, va / PAGE);
    var cow := IsCowPage(m, va);
    EntryReads(FrameOf(Entry(s, va / PAGE)), perm.User(), cow);
    ret := m.Protect(va, EntryFlags(perm.User(), cow));
    if ret == 0 { TableSet(s, m.State(), va / PAGE); }
  }

  /** `make_cow` of a user address. */
  method CowPage(m: Pmap, va: nat) returns (ret: int)
    requires m.Valid() && va < PAGES * PAGE
    modifies m
    ensures m.Valid()
    ensures var t, p := old(TableOf(m.State())), va / PAGE;
            if p in t && t[p].Seen() then ret == 0 && TableOf(m.State()) == t[p := t[p].MakeCow()]
            else ret == -14 && TableOf(m.State()) == t
  {
    hide TableOf, Entry, CowOf, ReadPte, IsValid, IsLeaf, Mapped, SameBut;
    PageBelow(va);
    ghost var s := m.State();
    TableHas(s, va / PAGE);
    CowReads(Entry(s, va / PAGE));
    ret := m.MakeCow(va);
    TableSet(s, m.State(), va / PAGE);
  }
}
