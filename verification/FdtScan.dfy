/** `early_scan_mem` of fdt/fdt.cc: the memory node, found in the tokens without building a tree. */
module FdtScan {
  import opened Basics
  import opened Options
  import opened Fdt
  import opened FdtTree

  /** "memory", "reg", "#address-cells" and "#size-cells". */
  const MEMORY: Bytes := [109, 101, 109, 111, 114, 121]
  const REG: Bytes := [114, 101, 103]
  const ADDRESS_CELLS: Bytes := [35, 97, 100, 100, 114, 101, 115, 115, 45, 99, 101, 108, 108, 115]
  const SIZE_CELLS: Bytes := [35, 115, 105, 122, 101, 45, 99, 101, 108, 108, 115]

  /** What is found: base and size; nothing; or a value that is shorter than its cells. */
  datatype Scanned = Found(base: nat, size: nat) | Missing | Short

  /** Cell `i` of a value, if the value has it. */
  function Cell(v: Bytes, i: nat): Option<nat> { if 4 * i + 4 <= |v| then Some(ReadBe(v, 4 * i)) else None }

  /** `read_cells` of the value from cell `i` on. */
  function ReadCells(v: Bytes, i: nat, cells: nat): Option<nat> {
    if cells == 2 then
      if Cell(v, i + 1).None? then None else Some(Cell(v, i).value * 0x1_0000_0000 + Cell(v, i + 1).value)
    else Cell(v, i)
  }

  /** Base and size in a `reg` value; the numbers of cells may not be known. */
  function Reg(v: Bytes, ac: Option<nat>, sc: Option<nat>): (r: Scanned)
    ensures !r.Missing?
  {
    if ac.None? || sc.None? then Short
    else
      var base, size := ReadCells(v, 0, ac.value), ReadCells(v, ac.value, sc.value);
      if base.None? || size.None? then Short else Found(base.value, size.value)
  }

  // ----- The search of a tree -----

  function GetProp(ps: seq<Prop>, name: Bytes): Option<Bytes> {
    if ps == [] then None else if ps[0].name == name then Some(ps[0].value) else GetProp(ps[1..], name)
  }

  /** The number of cells that the properties set: the last one counts. */
  function Cells(ps: seq<Prop>, name: Bytes, default: Option<nat>): Option<nat> {
    if ps == [] then default
    else Cells(ps[1..], name, if ps[0].name == name then Cell(ps[0].value, 0) else default)
  }

  /** The first of the nodes that is named `memory...` and has a `reg`. */
  function FirstMemory(ts: seq<Node>, ac: Option<nat>, sc: Option<nat>): Scanned {
    if ts == [] then Missing
    else if MEMORY <= ts[0].name && GetProp(ts[0].props, REG).Some?
    then Reg(GetProp(ts[0].props, REG).value, ac, sc)
    else FirstMemory(ts[1..], ac, sc)
  }

  function SearchMem(t: Node): Scanned {
    FirstMemory(t.children, Cells(t.props, ADDRESS_CELLS, Some(2)), Cells(t.props, SIZE_CELLS, Some(1)))
  }

  // ----- The scan of the tokens -----

  /** The scan at some depth, with the root's cell sizes so far; nothing is the panic at the end. */
  function Scan(depth: int, ac: Option<nat>, sc: Option<nat>, inMemory: bool, ts: seq<Token>): Scanned
    decreases |ts|
  {
    if ts == [] then Missing
    else
      match ts[0]
      case Open(name) => Scan(depth + 1, ac, sc, depth == 0 && MEMORY <= name, ts[1..])
      case Close => Scan(if depth >= 0 then depth - 1 else depth, ac, sc, false, ts[1..])
      case Nop => Scan(depth, ac, sc, inMemory, ts[1..])
      case Item(p) =>
        if p.name == ADDRESS_CELLS then Scan(depth, if depth == 0 then Cell(p.value, 0) else ac, sc, inMemory, ts[1..])
        else if p.name == SIZE_CELLS then Scan(depth, ac, if depth == 0 then Cell(p.value, 0) else sc, inMemory, ts[1..])
        else if inMemory && p.name == REG then Reg(p.value, ac, sc)
        else Scan(depth, ac, sc, inMemory, ts[1..])
  }

  lemma {:induction false} ScanStrip(depth: int, ac: Option<nat>, sc: Option<nat>, inMemory: bool, ts: seq<Token>)
    ensures Scan(depth, ac, sc, inMemory, Strip(ts)) == Scan(depth, ac, sc, inMemory, ts)
    decreases |ts|
  {
    hide Reg, Cell;
    if ts != [] {
      var rest := ts[1..];
      assert ([ts[0]] + Strip(rest))[1..] == Strip(rest) && [] + Strip(rest) == Strip(rest);
      match ts[0]
      case Open(name) => ScanStrip(depth + 1, ac, sc, depth == 0 && MEMORY <= name, rest);
      case Close => ScanStrip(if depth >= 0 then depth - 1 else depth, ac, sc, false, rest);
      case Nop => ScanStrip(depth, ac, sc, inMemory, rest);
      case Item(p) =>
        ScanStrip(depth, if depth == 0 then Cell(p.value, 0) else ac, sc, inMemory, rest);
        ScanStrip(depth, ac, if depth == 0 then Cell(p.value, 0) else sc, inMemory, rest);
        ScanStrip(depth, ac, sc, inMemory, rest);
    }
  }

  /** The properties of the root set the cell sizes. */
  lemma {:induction false} ScanRootItems(ps: seq<Prop>, ac: Option<nat>, sc: Option<nat>, rest: seq<Token>)
    ensures Scan(0, ac, sc, false, Items(ps) + rest) == Scan(0, Cells(ps, ADDRESS_CELLS, ac), Cells(ps, SIZE_CELLS, sc), false, rest)
    decreases |ps|
  {
    if ps == [] {
      assert Items(ps) + rest == rest;
    } else {
      assert (Items(ps) + rest)[0] == Item(ps[0]) && (Items(ps) + rest)[1..] == Items(ps[1..]) + rest;
      var c := Cell(ps[0].value, 0);
      ScanRootItems(ps[1..], if ps[0].name == ADDRESS_CELLS then c else ac, if ps[0].name == SIZE_CELLS then c else sc, rest);
    }
  }

  /** Below the root, a `reg` counts in a memory node, and nothing else does. */
  lemma {:induction false} ScanItems(depth: nat, ac: Option<nat>, sc: Option<nat>, inMemory: bool, ps: seq<Prop>, rest: seq<Token>)
    requires depth > 0
    ensures Scan(depth, ac, sc, inMemory, Items(ps) + rest) ==
            if inMemory && GetProp(ps, REG).Some? then Reg(GetProp(ps, REG).value, ac, sc)
            else Scan(depth, ac, sc, inMemory, rest)
    decreases |ps|
  {
    if ps == [] {
      assert Items(ps) + rest == rest;
    } else {
      assert (Items(ps) + rest)[0] == Item(ps[0]) && (Items(ps) + rest)[1..] == Items(ps[1..]) + rest;
      ScanItems(depth, ac, sc, inMemory, ps[1..], rest);
    }
  }

  /** Nothing is found two levels below the root or deeper. */
  lemma {:induction false} ScanDeep(depth: nat, ac: Option<nat>, sc: Option<nat>, inMemory: bool, t: Node, rest: seq<Token>)
    requires depth > 0
    ensures Scan(depth, ac, sc, inMemory, Flat(t) + rest) == Scan(depth, ac, sc, false, rest)
    decreases t, 1
  {
    var toks := Flat(t) + rest;
    var tail := FlatAll(t.children) + ([Close] + rest);
    assert toks[0] == Open(t.name) && toks[1..] == Items(t.props) + tail;
    ScanItems(depth + 1, ac, sc, false, t.props, tail);
    ScanDeepAll(depth + 1, ac, sc, false, t.children, [Close] + rest);
    assert ([Close] + rest)[1..] == rest;
  }

  lemma {:induction false} ScanDeepAll(depth: nat, ac: Option<nat>, sc: Option<nat>, inMemory: bool, ts: seq<Node>, rest: seq<Token>)
    requires depth > 0
    ensures Scan(depth, ac, sc, inMemory, FlatAll(ts) + rest) == Scan(depth, ac, sc, inMemory && ts == [], rest)
    decreases ts, 0
  {
    if ts == [] {
      assert FlatAll(ts) + rest == rest;
    } else {
      assert FlatAll(ts) + rest == Flat(ts[0]) + (FlatAll(ts[1..]) + rest);
      ScanDeep(depth, ac, sc, inMemory, ts[0], FlatAll(ts[1..]) + rest);
      ScanDeepAll(depth, ac, sc, false, ts[1..], rest);
    }
  }

  /** The children of the root, one after the other. */
  lemma {:induction false} ScanChildren(ac: Option<nat>, sc: Option<nat>, ts: seq<Node>, rest: seq<Token>)
    ensures Scan(0, ac, sc, false, FlatAll(ts) + rest) ==
            if !FirstMemory(ts, ac, sc).Missing? then FirstMemory(ts, ac, sc) else Scan(0, ac, sc, false, rest)
    decreases |ts|
  {
    hide Scan, GetProp, Reg, Flat;
    if ts == [] {
      assert FlatAll(ts) + rest == rest;
    } else {
      assert FlatAll(ts) + rest == Flat(ts[0]) + (FlatAll(ts[1..]) + rest);
      ScanChild(ac, sc, ts[0], FlatAll(ts[1..]) + rest);
      ScanChildren(ac, sc, ts[1..], rest);
    }
  }

  lemma ScanChild(ac: Option<nat>, sc: Option<nat>, t: Node, more: seq<Token>)
    ensures Scan(0, ac, sc, false, Flat(t) + more) ==
            if MEMORY <= t.name && GetProp(t.props, REG).Some? then Reg(GetProp(t.props, REG).value, ac, sc)
            else Scan(0, ac, sc, false, more)
  {
    hide Scan, GetProp, Reg, Flat, FlatAll, Items;
    var tail := FlatAll(t.children) + ([Close] + more);
    FlatParts(t, more);
    ScanOpen(ac, sc, t.name, Items(t.props) + tail);
    ScanItems(1, ac, sc, MEMORY <= t.name, t.props, tail);
    ScanDeepAll(1, ac, sc, MEMORY <= t.name, t.children, [Close] + more);
    ScanClose(ac, sc, MEMORY <= t.name && t.children == [], more);
  }

  lemma ScanOpen(ac: Option<nat>, sc: Option<nat>, name: Bytes, rest: seq<Token>)
    ensures Scan(0, ac, sc, false, [Open(name)] + rest) == Scan(1, ac, sc, MEMORY <= name, rest)
  {
    assert ([Open(name)] + rest)[1..] == rest;
  }

  lemma ScanClose(ac: Option<nat>, sc: Option<nat>, inMemory: bool, rest: seq<Token>)
    ensures Scan(1, ac, sc, inMemory, [Close] + rest) == Scan(0, ac, sc, false, rest)
  {
    assert ([Close] + rest)[1..] == rest;
  }

  /** The scan finds what a search of the tree finds, whatever NOPs there are and however deep it is. */
  lemma ScanIsSearch(t: Node, ts: seq<Token>)
    requires Strip(ts) == Flat(t)
    ensures Scan(-1, Some(2), Some(1), false, ts) == SearchMem(t)
  {
    ScanStrip(-1, Some(2), Some(1), false, ts);
    var tail := FlatAll(t.children) + [Close];
    assert Flat(t)[1..] == Items(t.props) + tail;
    ScanRootItems(t.props, Some(2), Some(1), tail);
    var ac, sc := Cells(t.props, ADDRESS_CELLS, Some(2)), Cells(t.props, SIZE_CELLS, Some(1));
    ScanChildren(ac, sc, t.children, [Close]);
    assert [Close][1..] == [];
  }

  // ----- The loop -----

  /** A 32-bit word of memory, from the structure block on; memory beyond `b` is not modelled and reads as 0. */
  function WordAt(b: Bytes, pos: nat): nat { if pos + 4 <= |b| then ReadBe(b, pos) else 0 }

  /** `read_cells`, wherever it points. */
  function CellsAt(b: Bytes, pos: nat, cells: nat): nat {
    if cells == 2 then WordAt(b, pos) * 0x1_0000_0000 + WordAt(b, pos + 4) else WordAt(b, pos)
  }

  /** The value of a property lies at 12 bytes from its token, so that its cells are read there. */
  lemma CellIsWord(b: Bytes, strings: Bytes, off: nat, i: nat)
    requires Lex(b, strings, off).Tok? && Lex(b, strings, off).tok.Item?
    ensures var v := Lex(b, strings, off).tok.prop.value;
            && off + 12 + |v| <= |b| && |v| < U32
            && (Cell(v, i).Some? ==> Cell(v, i).value == WordAt(b, off + 12 + 4 * i))
  {
    var v := Lex(b, strings, off).tok.prop.value;
    assert v == b[off + 12..off + 12 + |v|];
    assert ReadBe(b, off + 4) == |v|;
    WordBound(b, off + 4);
  }

  lemma WordBound(b: Bytes, off: nat)
    requires off + 4 <= |b|
    ensures ReadBe(b, off) < U32
  {
  }

  /** A value that has its cells is read as it should be, in 32-bit offsets. */
  lemma RegIsWords(b: Bytes, strings: Bytes, off: nat, ac: nat, sc: nat)
    requires Lex(b, strings, off).Tok? && Lex(b, strings, off).tok.Item?
    ensures var v := Lex(b, strings, off).tok.prop.value;
            var r := Reg(v, Some(ac), Some(sc));
            r.Found? ==> r == Found(CellsAt(b, off + 12, ac), CellsAt(b, off + 12 + (4 * ac) % U32, sc))
  {
    hide Lex, ReadCells, CellsAt;
    CellsAreWords(b, strings, off, 0, ac);
    CellsAreWords(b, strings, off, ac, sc);
    var v := Lex(b, strings, off).tok.prop.value;
    if 4 * ac < |v| { SmallMod(4 * ac); }
  }

  lemma SmallMod(x: nat)
    requires x < U32
    ensures x % U32 == x
  {
  }

  lemma CellsAreWords(b: Bytes, strings: Bytes, off: nat, i: nat, cells: nat)
    requires Lex(b, strings, off).Tok? && Lex(b, strings, off).tok.Item?
    ensures var v := Lex(b, strings, off).tok.prop.value;
            && |v| < U32
            && (ReadCells(v, i, cells).Some? ==> 4 * i < |v| && ReadCells(v, i, cells).value == CellsAt(b, off + 12 + 4 * i, cells))
  {
    hide Lex, WordAt, ReadBe;
    CellIsWord(b, strings, off, i);
    CellIsWord(b, strings, off, i + 1);
    assert off + 12 + 4 * (i + 1) == off + 12 + 4 * i + 4;
  }

  /** A number of cells that the scan knows is the one in the array. */
  predicate Knows(c: Option<nat>, n: nat) { c == None || c == Some(n) }

  /**
   `early_scan_mem` of a structure block that is not cut short. No result is a panic: no memory node,
   or a token that is not known. Values that are too short are read on into what follows them.
   */
  method EarlyScanMem(b: Bytes, strings: Bytes) returns (r: Option<(nat, nat)>)
    requires LexAll(b, strings, 0).1 != CutShort
    ensures match Scan(-1, Some(2), Some(1), false, LexAll(b, strings, 0).0)
            case Found(base, size) => r == Some((base, size))
            case Missing => r == None
            case Short => r.Some?
  {
    hide Lex, Reg;
    var off, depth, inMemory := 0, -1, false;
    var addressCells := new nat[16](i => if i == 0 then 2 else 0);
    var sizeCells := new nat[16](i => if i == 0 then 1 else 0);
    ghost var ac: Option<nat>, sc: Option<nat> := Some(2), Some(1);
    while true
      invariant off <= |b| && LexAll(b, strings, off).1 != CutShort && depth >= -1 && (inMemory ==> depth == 1)
      invariant Knows(ac, addressCells[0]) && Knows(sc, sizeCells[0])
      invariant Scan(depth, ac, sc, inMemory, LexAll(b, strings, off).0)
             == Scan(-1, Some(2), Some(1), false, LexAll(b, strings, 0).0)
      decreases |b| - off
    {
      var l := Lex(b, strings, off);
      if !l.Tok? {
        return None;
      }
      ghost var rest := LexAll(b, strings, l.next).0;
      assert LexAll(b, strings, off).0 == [l.tok] + rest && ([l.tok] + rest)[1..] == rest;
      var value := off + 12;
      match l.tok {
        case Open(name) =>
          depth := depth + 1;
          if 0 < depth < 16 {
            addressCells[depth] := addressCells[depth - 1];
            sizeCells[depth] := sizeCells[depth - 1];
          }
          inMemory := depth == 1 && MEMORY <= name;
        case Close =>
          if depth >= 0 {
            depth := depth - 1;
          }
          inMemory := false;
        case Item(p) =>
          CellIsWord(b, strings, off, 0);
          if 0 <= depth < 16 {
            if p.name == ADDRESS_CELLS {
              addressCells[depth] := WordAt(b, value);
              if depth == 0 { ac := Cell(p.value, 0); }
            } else if p.name == SIZE_CELLS {
              sizeCells[depth] := WordAt(b, value);
              if depth == 0 { sc := Cell(p.value, 0); }
            } else if inMemory && p.name == REG {
              var parent := if depth > 0 then depth - 1 else 0;
              RegIsWords(b, strings, off, addressCells[parent], sizeCells[parent]);
              RegUnknown(p.value, ac, sc);
              return Some((CellsAt(b, value, addressCells[parent]),
                           CellsAt(b, value + (4 * addressCells[parent]) % U32, sizeCells[parent])));
            }
          }
        case Nop =>
      }
      off := l.next;
    }
  }

  lemma RegUnknown(v: Bytes, ac: Option<nat>, sc: Option<nat>)
    ensures ac.None? || sc.None? ==> Reg(v, ac, sc) == Short
  {
  }

  /**
   Scanning the block of a tree, before the tree is built, finds what a search of the tree finds. For a
   value that is shorter than its cells it finds something else.
   */
  method EarlyScanTree(b: Bytes, strings: Bytes, ghost t: Node, ghost ts: seq<Token>, ghost table: map<Bytes, nat>)
    returns (r: Option<(nat, nat)>)
    requires Strip(ts) == Flat(t) && (forall i :: 0 <= i < |ts| ==> Writable(ts[i], table)) && Names(strings, table)
    requires Lies(b, 0, EncodeAll(ts, table) + Be32(9))
    ensures match SearchMem(t)
            case Found(base, size) => r == Some((base, size))
            case Missing => r == None
            case Short => r.Some?
  {
    hide Lies, EncodeAll, Flat, Strip, Writable, Names, LexAll, Scan, SearchMem;
    LexAllEncoded(b, 0, ts, strings, table);
    ScanIsSearch(t, ts);
    r := EarlyScanMem(b, strings);
  }

  // ----- What is written is what is found -----

  /** A number of one or two cells, as a device tree has it. */
  function WriteCells(x: nat, cells: nat): Bytes
    requires x < U64 && (cells == 2 || x < U32)
  {
    if cells == 2 then Be32(x / U32) + Be32(x % U32) else Be32(x)
  }

  lemma CellOf(v: Bytes, i: nat, x: nat)
    requires x < U32 && Lies(v, 4 * i, Be32(x))
    ensures Cell(v, i) == Some(x)
  {
    BeLength(x);
    ReadAt(v, 4 * i, x);
  }

  /** Reading cells undoes writing them, wherever they are. */
  lemma ReadsWritten(v: Bytes, i: nat, x: nat, cells: nat)
    requires x < U64 && (cells == 2 || x < U32) && Lies(v, 4 * i, WriteCells(x, cells))
    ensures ReadCells(v, i, cells) == Some(x)
  {
    hide Lies, Be32, Cell;
    if cells == 2 {
      BeLength(x / U32);
      LiesParts(v, 4 * i, Be32(x / U32), Be32(x % U32));
      CellOf(v, i, x / U32);
      CellOf(v, i + 1, x % U32);
    } else {
      CellOf(v, i, x);
    }
  }

  /** A `reg` value of a base and a size reads as them. */
  lemma RegReads(base: nat, size: nat, ac: nat, sc: nat)
    requires base < U64 && size < U64 && 1 <= ac <= 2 && 1 <= sc <= 2 && (ac == 1 ==> base < U32) && (sc == 1 ==> size < U32)
    ensures Reg(WriteCells(base, ac) + WriteCells(size, sc), Some(ac), Some(sc)) == Found(base, size)
  {
    hide Be32, ReadCells;
    var x, y := WriteCells(base, ac), WriteCells(size, sc);
    CellsLength(base, ac);
    assert Lies(x + y, 0, x) && Lies(x + y, |x|, y);
    ReadsWritten(x + y, 0, base, ac);
    ReadsWritten(x + y, ac, size, sc);
  }

  lemma CellsLength(x: nat, cells: nat)
    requires x < U64 && (cells == 2 || x < U32)
    ensures |WriteCells(x, cells)| == if cells == 2 then 8 else 4
  {
  }

  /** The one property with that name has that value. */
  ghost predicate Only(ps: seq<Prop>, name: Bytes, v: Bytes) {
    exists i :: 0 <= i < |ps| && ps[i] == Prop(name, v) && forall j :: 0 <= j < |ps| && j != i ==> ps[j].name != name
  }

  predicate Lacks(ps: seq<Prop>, name: Bytes) { forall j :: 0 <= j < |ps| ==> ps[j].name != name }

  lemma {:induction false} CellsLacking(ps: seq<Prop>, name: Bytes, c: Option<nat>)
    requires Lacks(ps, name)
    ensures Cells(ps, name, c) == c
  {
    if ps != [] { CellsLacking(ps[1..], name, c); }
  }

  lemma WordCell(n: nat)
    requires n < U32
    ensures Cell(Be32(n), 0) == Some(n)
  {
    BeLength(n);
    BeReads(n);
  }

  lemma {:induction false} CellsOnly(ps: seq<Prop>, name: Bytes, c: Option<nat>, n: nat)
    requires n < U32 && Only(ps, name, Be32(n))
    ensures Cells(ps, name, c) == Some(n)
  {
    hide Be32, Cell;
    var i :| 0 <= i < |ps| && ps[i] == Prop(name, Be32(n)) && forall j :: 0 <= j < |ps| && j != i ==> ps[j].name != name;
    if i == 0 {
      WordCell(n);
      assert Lacks(ps[1..], name);
      CellsLacking(ps[1..], name, Some(n));
    } else {
      assert ps[1..][i - 1] == Prop(name, Be32(n));
      CellsOnly(ps[1..], name, c, n);
    }
  }

  lemma {:induction false} PropOnly(ps: seq<Prop>, name: Bytes, v: Bytes)
    requires Only(ps, name, v)
    ensures GetProp(ps, name) == Some(v)
  {
    var i :| 0 <= i < |ps| && ps[i] == Prop(name, v) && forall j :: 0 <= j < |ps| && j != i ==> ps[j].name != name;
    if i > 0 {
      assert ps[1..][i - 1] == Prop(name, v);
      PropOnly(ps[1..], name, v);
    }
  }

  lemma {:induction false} PropLacking(ps: seq<Prop>, name: Bytes)
    requires Lacks(ps, name)
    ensures GetProp(ps, name) == None
  {
    if ps != [] { PropLacking(ps[1..], name); }
  }

  /** A number of cells that the properties set, or else the default. */
  ghost predicate Sets(ps: seq<Prop>, name: Bytes, n: nat, default: nat) {
    n < U32 && (Only(ps, name, Be32(n)) || (Lacks(ps, name) && n == default))
  }

  /** Child `k` is the memory of the machine: the first that is named so and has a `reg`, which says base and size. */
  ghost predicate Describes(t: Node, k: nat, ac: nat, sc: nat, base: nat, size: nat) {
    && 1 <= ac <= 2 && 1 <= sc <= 2 && base < U64 && size < U64 && (ac == 1 ==> base < U32) && (sc == 1 ==> size < U32)
    && Sets(t.props, ADDRESS_CELLS, ac, 2) && Sets(t.props, SIZE_CELLS, sc, 1)
    && k < |t.children| && MEMORY <= t.children[k].name
    && Only(t.children[k].props, REG, WriteCells(base, ac) + WriteCells(size, sc))
    && forall j :: 0 <= j < k ==> !(MEMORY <= t.children[j].name) || Lacks(t.children[j].props, REG)
  }

  lemma {:induction false} FirstIs(ts: seq<Node>, k: nat, ac: Option<nat>, sc: Option<nat>, v: Bytes)
    requires k < |ts| && MEMORY <= ts[k].name && Only(ts[k].props, REG, v)
    requires forall j :: 0 <= j < k ==> !(MEMORY <= ts[j].name) || Lacks(ts[j].props, REG)
    ensures FirstMemory(ts, ac, sc) == Reg(v, ac, sc)
    decreases k
  {
    hide Only, Lacks, Reg;
    if k == 0 {
      PropOnly(ts[0].props, REG, v);
    } else {
      if MEMORY <= ts[0].name { PropLacking(ts[0].props, REG); }
      FirstIs(ts[1..], k - 1, ac, sc, v);
    }
  }

  lemma SetsCells(ps: seq<Prop>, name: Bytes, n: nat, default: nat)
    requires Sets(ps, name, n, default)
    ensures Cells(ps, name, Some(default)) == Some(n)
  {
    if Only(ps, name, Be32(n)) { CellsOnly(ps, name, Some(default), n); } else { CellsLacking(ps, name, Some(default)); }
  }

  lemma SearchFinds(t: Node, k: nat, ac: nat, sc: nat, base: nat, size: nat)
    requires Describes(t, k, ac, sc, base, size)
    ensures SearchMem(t) == Found(base, size)
  {
    hide Only, Lacks, Sets, Reg, Be32, WriteCells, FirstMemory;
    SetsCells(t.props, ADDRESS_CELLS, ac, 2);
    SetsCells(t.props, SIZE_CELLS, sc, 1);
    RegReads(base, size, ac, sc);
    FirstIs(t.children, k, Some(ac), Some(sc), WriteCells(base, ac) + WriteCells(size, sc));
  }

  /** From the block of a tree that describes a memory, the scan returns its base and size. */
  method EarlyScanFinds(b: Bytes, strings: Bytes, ghost t: Node, ghost ts: seq<Token>, ghost table: map<Bytes, nat>,
                        ghost k: nat, ghost ac: nat, ghost sc: nat, ghost base: nat, ghost size: nat)
    returns (r: Option<(nat, nat)>)
    requires Strip(ts) == Flat(t) && (forall i :: 0 <= i < |ts| ==> Writable(ts[i], table)) && Names(strings, table)
    requires Lies(b, 0, EncodeAll(ts, table) + Be32(9)) && Describes(t, k, ac, sc, base, size)
    ensures r == Some((base, size))
  {
    hide Lies, EncodeAll, Flat, Strip, Writable, Names, SearchMem, Describes;
    SearchFinds(t, k, ac, sc, base, size);
    r := EarlyScanTree(b, strings, t, ts, table);
  }

  // ----- The names -----

  function Ascii(s: string): Bytes
    requires forall i :: 0 <= i < |s| ==> s[i] < 128 as char
  {
    seq(|s|, i requires 0 <= i < |s| => s[i] as int)
  }

  lemma Spelled()
    ensures MEMORY == Ascii("memory") && REG == Ascii("reg")
    ensures ADDRESS_CELLS == Ascii("#address-cells") && SIZE_CELLS == Ascii("#size-cells")
  {
  }
}
