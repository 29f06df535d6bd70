/**
 Flattened device trees (section 5.4, Structure Block, of the Devicetree Specification v0.4): how a
 structure block is laid out, how fdt/fdt.cc reads its tokens, and what tree they make.
 */
module Fdt {
  import opened Basics
  import opened Options

  type Bytes = seq<Byte>

  datatype Prop = Prop(name: Bytes, value: Bytes)

  datatype Node = Node(name: Bytes, props: seq<Prop>, children: seq<Node>)

  datatype Token = Open(name: Bytes) | Close | Item(prop: Prop) | Nop

  /** The levels that unflatten's stack has room for. */
  const MAX_DEPTH: nat := 16

  // ----- Bytes -----

  function Be32(x: nat): Bytes
    requires x < 0x1_0000_0000
  {
    [x / 0x100_0000, x / 0x1_0000 % 0x100, x / 0x100 % 0x100, x % 0x100]
  }

  function ReadBe(b: Bytes, off: nat): nat
    requires off + 4 <= |b|
  {
    Word(b[off], b[off + 1], b[off + 2], b[off + 3])
  }

  function Word(a: nat, b: nat, c: nat, d: nat): nat { a * 0x100_0000 + b * 0x1_0000 + c * 0x100 + d }

  lemma BeReads(x: nat)
    requires x < 0x1_0000_0000
    ensures ReadBe(Be32(x), 0) == x
  {
  }

  /** `e` lies in `b` at `off`. */
  predicate Lies(b: Bytes, off: nat, e: Bytes) {
    off + |e| <= |b| && b[off..off + |e|] == e
  }

  /** What is read where `x` lies. */
  lemma ReadAt(b: Bytes, off: nat, x: nat)
    requires x < 0x1_0000_0000 && Lies(b, off, Be32(x))
    ensures off + 4 <= |b| && ReadBe(b, off) == x
  {
    BeReads(x);
    var e := Be32(x);
    assert forall i :: 0 <= i < 4 ==> b[off + i] == b[off..off + 4][i] == e[i];
  }

  /** Parts of what lies in `b` lie in `b`. */
  lemma LiesParts(b: Bytes, off: nat, x: Bytes, y: Bytes)
    requires Lies(b, off, x + y)
    ensures Lies(b, off, x) && Lies(b, off + |x|, y)
  {
    assert x == (x + y)[..|x|] == b[off..off + |x + y|][..|x|];
    assert y == (x + y)[|x|..] == b[off..off + |x + y|][|x|..];
  }

  function Pad(n: nat): (r: nat)
    ensures r % 4 == 0 && n <= r < n + 4
  {
    (n + 3) / 4 * 4
  }

  lemma PadFrom(off: nat, n: nat)
    requires off % 4 == 0
    ensures Pad(off + n) == off + Pad(n)
  {
  }

  function Zeros(n: nat): Bytes { seq(n, _ => 0) }

  /** How far the string at `off` goes; none if it is not ended. */
  function StrLen(b: Bytes, off: nat): (r: Option<nat>)
    ensures r.Some? ==> off + r.value < |b| && b[off + r.value] == 0 && forall i :: off <= i < off + r.value ==> b[i] != 0
    ensures r.None? ==> forall i :: off <= i < |b| ==> b[i] != 0
    decreases |b| - off
  {
    if off >= |b| then None
    else if b[off] == 0 then Some(0)
    else match StrLen(b, off + 1) case None => None case Some(n) => Some(n + 1)
  }

  lemma StrLenIs(b: Bytes, off: nat, n: nat)
    requires off + n < |b| && b[off + n] == 0 && forall i :: off <= i < off + n ==> b[i] != 0
    ensures StrLen(b, off) == Some(n)
  {
  }

  function CString(b: Bytes, off: nat): Option<Bytes> {
    match StrLen(b, off) case None => None case Some(n) => Some(b[off..off + n])
  }

  // ----- Reading tokens -----

  /** One token and where the next one is; the end; a token that is not known; or a block cut short. */
  datatype Lexed = Tok(tok: Token, next: nat) | Finish | Unknown | CutShort

  function Lex(b: Bytes, strings: Bytes, off: nat): (r: Lexed)
    ensures r.Tok? ==> r.next > off
  {
    if off + 4 > |b| then CutShort
    else match ReadBe(b, off)
         case 1 => (match CString(b, off + 4)
                    case None => CutShort
                    case Some(name) => Tok(Open(name), Pad(off + 4 + |name| + 1)))
         case 2 => Tok(Close, off + 4)
         case 3 => LexProp(b, strings, off + 4)
         case 4 => Tok(Nop, off + 4)
         case 9 => Finish
         case _ => Unknown
  }

  /** What ends the reading: the end token, and every word that is none of the five. */
  lemma LexKinds(b: Bytes, strings: Bytes, off: nat)
    requires off + 4 <= |b|
    ensures var w := ReadBe(b, off);
            && (Lex(b, strings, off).Finish? <==> w == 9)
            && (Lex(b, strings, off).Unknown? <==> w != 1 && w != 2 && w != 3 && w != 4 && w != 9)
  {
  }

  function LexProp(b: Bytes, strings: Bytes, off: nat): (r: Lexed)
    ensures r.Tok? ==> r.next >= off
  {
    if off + 8 > |b| || off + 8 + ReadBe(b, off) > |b| then CutShort
    else
      var len := ReadBe(b, off);
      match CString(strings, ReadBe(b, off + 4))
      case None => CutShort
      case Some(name) => Tok(Item(Prop(name, b[off + 8..off + 8 + len])), Pad(off + 8 + len))
  }

  /** All the tokens from `off` on, and what comes after them. */
  function LexAll(b: Bytes, strings: Bytes, off: nat): (seq<Token>, Lexed)
    decreases |b| - off
  {
    match Lex(b, strings, off)
    case Tok(t, next) =>
      if next > |b| then ([t], CutShort)
      else
        var (ts, last) := LexAll(b, strings, next);
        ([t] + ts, last)
    case last => ([], last)
  }

  // ----- Writing tokens -----

  /** The strings block has each property name where the table says. */
  ghost predicate Names(strings: Bytes, table: map<Bytes, nat>) {
    forall name :: name in table ==> table[name] < 0x1_0000_0000 && CString(strings, table[name]) == Some(name)
  }

  predicate NoZero(s: Bytes) {
    forall i :: 0 <= i < |s| ==> s[i] != 0
  }

  /** A token that can be written: its name has no zero in it, or is in the strings block. */
  predicate Writable(t: Token, table: map<Bytes, nat>) {
    match t
    case Open(name) => NoZero(name)
    case Item(p) => p.name in table && table[p.name] < 0x1_0000_0000 && |p.value| < 0x1_0000_0000
    case _ => true
  }

  function Encode(t: Token, table: map<Bytes, nat>): (r: Bytes)
    requires Writable(t, table)
  {
    match t
    case Open(name) => Be32(1) + name + Zeros(Pad(|name| + 1) - |name|)
    case Close => Be32(2)
    case Item(p) => Be32(3) + Be32(|p.value|) + Be32(table[p.name]) + p.value + Zeros(Pad(|p.value|) - |p.value|)
    case Nop => Be32(4)
  }

  lemma EncodeLength(t: Token, table: map<Bytes, nat>)
    requires Writable(t, table)
    ensures |Encode(t, table)| % 4 == 0
  {
  }

  /** A token that was written is read back. */
  lemma LexEncode(b: Bytes, off: nat, t: Token, strings: Bytes, table: map<Bytes, nat>)
    requires Writable(t, table) && Names(strings, table) && off % 4 == 0 && Lies(b, off, Encode(t, table))
    ensures Lex(b, strings, off) == Tok(t, off + |Encode(t, table)|)
  {
    hide Be32, ReadBe, Lies;
    BeLength(1);
    BeLength(2);
    BeLength(4);
    match t
    case Close => ReadAt(b, off, 2);
    case Nop => ReadAt(b, off, 4);
    case Open(name) => LexOpen(b, off, name, strings);
    case Item(p) => LexItem(b, off, p, strings, table);
  }

  lemma LexOpen(b: Bytes, off: nat, name: Bytes, strings: Bytes)
    requires NoZero(name) && off % 4 == 0 && Lies(b, off, Be32(1) + name + Zeros(Pad(|name| + 1) - |name|))
    ensures Lex(b, strings, off) == Tok(Open(name), off + 4 + Pad(|name| + 1))
  {
    hide Be32, ReadBe, Lies;
    var z := Zeros(Pad(|name| + 1) - |name|);
    BeLength(1);
    LiesParts(b, off, Be32(1) + name, z);
    LiesParts(b, off, Be32(1), name);
    ReadAt(b, off, 1);
    StringAt(b, off + 4, name, z);
    PadFrom(off + 4, |name| + 1);
  }

  lemma BeLength(x: nat)
    requires x < 0x1_0000_0000
    ensures |Be32(x)| == 4
  {
  }

  /** A name with zeros after it is read as that name. */
  lemma StringAt(b: Bytes, off: nat, name: Bytes, z: Bytes)
    requires NoZero(name) && Lies(b, off, name) && Lies(b, off + |name|, z) && |z| > 0 && z[0] == 0
    ensures CString(b, off) == Some(name)
  {
    assert forall i :: 0 <= i < |name| ==> b[off + i] == b[off..off + |name|][i] == name[i];
    assert b[off + |name|] == b[off + |name|..off + |name| + |z|][0];
    StrLenIs(b, off, |name|);
  }

  lemma LexItem(b: Bytes, off: nat, p: Prop, strings: Bytes, table: map<Bytes, nat>)
    requires Writable(Item(p), table) && Names(strings, table) && off % 4 == 0 && Lies(b, off, Encode(Item(p), table))
    ensures Lex(b, strings, off) == Tok(Item(p), off + |Encode(Item(p), table)|)
  {
    hide Be32, ReadBe, Lies, Pad, Zeros, CString;
    var v, l, n := p.value, Be32(|p.value|), Be32(table[p.name]);
    var z := Zeros(Pad(|v|) - |v|);
    BeLength(3);
    BeLength(|v|);
    BeLength(table[p.name]);
    ItemParts(b, off, Be32(3), l, n, v, z);
    ZerosLength(Pad(|v|) - |v|);
    ReadAt(b, off, 3);
    ReadAt(b, off + 4, |v|);
    ReadAt(b, off + 8, table[p.name]);
    ValueAt(b, off + 12, v);
    PadFrom(off + 12, |v|);
  }

  lemma ItemParts(b: Bytes, off: nat, t: Bytes, l: Bytes, n: Bytes, v: Bytes, z: Bytes)
    requires |t| == 4 && |l| == 4 && |n| == 4 && Lies(b, off, t + l + n + v + z)
    ensures Lies(b, off, t) && Lies(b, off + 4, l) && Lies(b, off + 8, n) && Lies(b, off + 12, v)
  {
    hide Lies;
    LiesParts(b, off, t + l + n + v, z);
    LiesParts(b, off, t + l + n, v);
    LiesParts(b, off, t + l, n);
    LiesParts(b, off, t, l);
  }

  lemma ZerosLength(n: nat)
    ensures |Zeros(n)| == n
  {
  }

  lemma ValueAt(b: Bytes, off: nat, v: Bytes)
    requires Lies(b, off, v)
    ensures off + |v| <= |b| && b[off..off + |v|] == v
  {
  }

  function EncodeAll(ts: seq<Token>, table: map<Bytes, nat>): Bytes
    requires forall i :: 0 <= i < |ts| ==> Writable(ts[i], table)
  {
    if ts == [] then [] else Encode(ts[0], table) + EncodeAll(ts[1..], table)
  }

  /** A structure block: tokens and the end token. Reading it gives back the tokens. */
  lemma {:induction false} LexAllEncoded(b: Bytes, off: nat, ts: seq<Token>, strings: Bytes, table: map<Bytes, nat>)
    requires (forall i :: 0 <= i < |ts| ==> Writable(ts[i], table)) && Names(strings, table) && off % 4 == 0
    requires Lies(b, off, EncodeAll(ts, table) + Be32(9))
    ensures LexAll(b, strings, off) == (ts, Finish)
    decreases |ts|
  {
    hide Be32, ReadBe, Lies, Lex, Encode, Names;
    if ts == [] {
      assert [] + Be32(9) == Be32(9);
      ReadAt(b, off, 9);
      LexEnd(b, strings, off);
    } else {
      var e, es := Encode(ts[0], table), EncodeAll(ts[1..], table);
      assert EncodeAll(ts, table) + Be32(9) == e + (es + Be32(9));
      LiesParts(b, off, e, es + Be32(9));
      LexEncode(b, off, ts[0], strings, table);
      EncodeLength(ts[0], table);
      InBytes(b, off + |e|, es + Be32(9));
      LexAllEncoded(b, off + |e|, ts[1..], strings, table);
      assert [ts[0]] + ts[1..] == ts;
    }
  }

  lemma InBytes(b: Bytes, off: nat, e: Bytes)
    requires Lies(b, off, e)
    ensures off + |e| <= |b|
  {
  }

  lemma LexEnd(b: Bytes, strings: Bytes, off: nat)
    requires off + 4 <= |b| && ReadBe(b, off) == 9
    ensures Lex(b, strings, off) == Finish
  {
  }

  /** The bytes of each kind of token: big-endian words, a name or value, and zeros up to a word. */
  lemma TokenBytes(table: map<Bytes, nat>)
    requires [97] in table && table[[97]] == 0x102
    ensures Encode(Open([97, 98]), table) == [0, 0, 0, 1, 97, 98, 0, 0] && Encode(Open([]), table) == [0, 0, 0, 1, 0, 0, 0, 0]
    ensures Encode(Item(Prop([97], [7])), table) == [0, 0, 0, 3, 0, 0, 0, 1, 0, 0, 1, 2, 7, 0, 0, 0]
    ensures Encode(Close, table) == [0, 0, 0, 2] && Encode(Nop, table) == [0, 0, 0, 4] && Be32(9) == [0, 0, 0, 9]
  {
    assert Zeros(4) == [0, 0, 0, 0] && Zeros(3) == [0, 0, 0] && Zeros(2) == [0, 0];
  }
}
