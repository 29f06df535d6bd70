/**
 The LZ4 block format as the boot image uses it: the packer of scripts/pack_image.py and the
 decoder of lib/decompress_lz4.cc.
 */
module Lz4 {
  import opened Basics
  import opened Options

  // ----- The format: what a block decodes to -----

  /** A length that goes on in further bytes: its value, in 32 bits, and what follows it. */
  function Extended(src: seq<Byte>, len: nat): (r: Option<(nat, seq<Byte>)>)
    ensures r.Some? ==> |r.value.1| < |src|
  {
    if src == [] then None
    else if src[0] == 255 then Extended(src[1..], (len + 255) % U32)
    else Some(((len + src[0]) % U32, src[1..]))
  }

  function Length(nibble: nat, src: seq<Byte>): (r: Option<(nat, seq<Byte>)>)
    ensures r.Some? ==> |r.value.1| <= |src|
  {
    if nibble == 15 then Extended(src, 15) else Some((nibble, src))
  }

  /** The output after copying `len` bytes from `off` bytes back, one at a time. */
  function CopyMatch(out: seq<Byte>, off: nat, len: nat): (r: seq<Byte>)
    requires 0 < off <= |out|
    ensures |r| == |out| + len && r[..|out|] == out
    decreases len
  {
    if len == 0 then out else CopyMatch(out + [out[|out| - off]], off, len - 1)
  }

  function Offset(lo: nat, hi: nat): nat { lo + 256 * hi }

  /** What follows the literals of a sequence: the offset, the rest of the match length, the match. */
  function Match(src: seq<Byte>, nibble: nat, out: seq<Byte>, cap: nat): (r: Option<(seq<Byte>, seq<Byte>)>)
    ensures r.Some? ==> |r.value.0| < |src|
  {
    if |src| < 2 then None
    else
      var off := Offset(src[0], src[1]);
      if off == 0 || off > |out| then None
      else match Length(nibble, src[2..])
           case None => None
           case Some((n, rest)) =>
             var len := (n + 4) % U32;
             if |out| + len > cap then None else Some((rest, CopyMatch(out, off, len)))
  }

  /** What is left of the block after one sequence, and the output so far. */
  function Sequence(src: seq<Byte>, out: seq<Byte>, cap: nat): (r: Option<(seq<Byte>, seq<Byte>)>)
    requires src != []
    ensures r.Some? ==> |r.value.0| < |src|
  {
    match Length(src[0] / 16, src[1..])
    case None => None
    case Some((len, rest)) =>
      if len > |rest| || |out| + len > cap then None
      else if len == |rest| then Some(([], out + rest))
      else Match(rest[len..], src[0] % 16, out + rest[..len], cap)
  }

  function Decode(src: seq<Byte>, out: seq<Byte>, cap: nat): Option<seq<Byte>>
    decreases |src|
  {
    if src == [] then Some(out)
    else match Sequence(src, out, cap)
         case None => None
         case Some((rest, more)) => Decode(rest, more, cap)
  }

  // ----- The format: what a sequence is encoded as -----

  function Token(lits: nat, len: nat): Byte { Min(lits, 15) * 16 + Min(len, 15) }

  function Run(l: nat): seq<Byte> {
    if l >= 255 then [255] + Run(l - 255) else [l]
  }

  function LengthBytes(x: nat): seq<Byte> {
    if x >= 15 then Run(x - 15) else []
  }

  function EncodeLast(lits: seq<Byte>): seq<Byte> {
    [Token(|lits|, 0)] + LengthBytes(|lits|) + lits
  }

  function EncodeSequence(lits: seq<Byte>, off: nat, len: nat): seq<Byte>
    requires off < 65536 && len >= 4
  {
    [Token(|lits|, len - 4)] + LengthBytes(|lits|) + lits + [off % 256, off / 256] + LengthBytes(len - 4)
  }

  // ----- They undo each other -----

  lemma WordSum(a: nat, b: nat)
    ensures (a % U32 + b) % U32 == (a + b) % U32
  {
  }

  lemma {:induction false} RunExtended(l: nat, len: nat, rest: seq<Byte>)
    ensures Extended(Run(l) + rest, len) == Some(((len + l) % U32, rest))
    decreases l
  {
    if l >= 255 {
      assert (Run(l) + rest)[1..] == Run(l - 255) + rest;
      RunExtended(l - 255, (len + 255) % U32, rest);
      WordSum(len + 255, l - 255);
    } else {
      assert ([l as Byte] + rest)[1..] == rest;
    }
  }

  lemma LengthRead(x: nat, rest: seq<Byte>)
    ensures Length(Min(x, 15), LengthBytes(x) + rest) == Some((x % U32, rest))
  {
    if x >= 15 {
      RunExtended(x - 15, 15, rest);
    } else {
      assert LengthBytes(x) + rest == rest;
    }
  }

  lemma ShortRead(x: nat, rest: seq<Byte>)
    requires x < U32
    ensures Length(Min(x, 15), LengthBytes(x) + rest) == Some((x, rest))
  {
    hide Length, LengthBytes;
    LengthRead(x, rest);
  }

  lemma LastDecodes(lits: seq<Byte>, out: seq<Byte>, cap: nat)
    requires |out| + |lits| <= cap && |lits| < U32
    ensures Decode(EncodeLast(lits), out, cap) == Some(out + lits)
  {
    var src := EncodeLast(lits);
    assert src[1..] == LengthBytes(|lits|) + lits;
    ShortRead(|lits|, lits);
    assert Token(|lits|, 0) / 16 == Min(|lits|, 15);
  }

  /** The bytes of a match, after the literals of its sequence. */
  function EncodeMatch(off: nat, len: nat): seq<Byte>
    requires off < 65536 && len >= 4
  {
    [off % 256, off / 256] + LengthBytes(len - 4)
  }

  lemma MatchDecodes(off: nat, len: nat, rest: seq<Byte>, out: seq<Byte>, cap: nat)
    requires 0 < off < 65536 && off <= |out| && 4 <= len < U32 && |out| + len <= cap
    ensures Match(EncodeMatch(off, len) + rest, Min(len - 4, 15), out, cap) == Some((rest, CopyMatch(out, off, len)))
  {
    hide LengthBytes, Length, CopyMatch, EncodeMatch, Offset, Min, Match;
    MatchSplit(off, len, rest);
    ShortRead(len - 4, rest);
    LengthBack(len);
    MatchReads(EncodeMatch(off, len) + rest, Min(len - 4, 15), out, cap, len, rest);
  }

  /** The cases of `Match` where nothing is wrong. */
  lemma MatchReads(src: seq<Byte>, nibble: nat, out: seq<Byte>, cap: nat, len: nat, rest: seq<Byte>)
    requires |src| >= 2 && 0 < Offset(src[0], src[1]) <= |out| && |out| + len <= cap
    requires Length(nibble, src[2..]).Some? && Length(nibble, src[2..]).value.1 == rest
    requires (Length(nibble, src[2..]).value.0 + 4) % U32 == len
    ensures Match(src, nibble, out, cap) == Some((rest, CopyMatch(out, Offset(src[0], src[1]), len)))
  {
    hide Length, CopyMatch, Offset;
  }

  lemma LengthBack(len: nat)
    requires 4 <= len < U32
    ensures (len - 4 + 4) % U32 == len
  {
  }

  lemma MatchSplit(off: nat, len: nat, rest: seq<Byte>)
    requires off < 65536 && len >= 4
    ensures var src := EncodeMatch(off, len) + rest;
            |src| >= 2 && Offset(src[0], src[1]) == off && src[2..] == LengthBytes(len - 4) + rest
  {
    hide LengthBytes;
  }

  lemma SequenceDecodes(lits: seq<Byte>, off: nat, len: nat, rest: seq<Byte>, out: seq<Byte>, cap: nat)
    requires 0 < off < 65536 && off <= |out| + |lits| && 4 <= len && |out| + |lits| + len <= cap
    requires |lits| < U32 && len < U32
    ensures Decode(EncodeSequence(lits, off, len) + rest, out, cap) == Decode(rest, CopyMatch(out + lits, off, len), cap)
  {
    hide LengthBytes, Length, CopyMatch, EncodeSequence, EncodeMatch, Match, Token, Min;
    var tail := EncodeMatch(off, len) + rest;
    SequenceSplit(lits, off, len, rest);
    TokenHalves(|lits|, len - 4);
    ShortRead(|lits|, lits + tail);
    assert (lits + tail)[|lits|..] == tail && (lits + tail)[..|lits|] == lits;
    MatchDecodes(off, len, rest, out + lits, cap);
  }

  lemma TokenHalves(lits: nat, len: nat)
    ensures Token(lits, len) / 16 == Min(lits, 15) && Token(lits, len) % 16 == Min(len, 15)
  {
  }

  lemma SequenceSplit(lits: seq<Byte>, off: nat, len: nat, rest: seq<Byte>)
    requires off < 65536 && len >= 4
    ensures var src, tail := EncodeSequence(lits, off, len) + rest, EncodeMatch(off, len) + rest;
            && |tail| >= 2 && src != [] && src[0] == Token(|lits|, len - 4)
            && src[1..] == LengthBytes(|lits|) + (lits + tail)
  {
    hide LengthBytes;
    var l, m, ob: seq<Byte> := LengthBytes(|lits|), LengthBytes(len - 4), [off % 256, off / 256];
    Regroup([Token(|lits|, len - 4)], l, lits, ob, m, rest);
  }

  lemma Regroup(t: seq<Byte>, l: seq<Byte>, lits: seq<Byte>, ob: seq<Byte>, m: seq<Byte>, rest: seq<Byte>)
    requires |t| == 1
    ensures (t + l + lits + ob + m + rest)[1..] == l + (lits + (ob + m + rest))
  {
    assert t + l + lits + ob + m + rest == t + (l + (lits + (ob + m + rest)));
  }

  /** Where the earlier data repeats, copying it continues the data. */
  lemma {:induction false} CopyRepeats(data: seq<Byte>, from: nat, to: nat, len: nat)
    requires from < to && to + len <= |data|
    requires forall k :: from <= k < from + len ==> data[k] == data[k + (to - from)]
    ensures CopyMatch(data[..to], to - from, len) == data[..to + len]
    decreases len
  {
    if len > 0 {
      assert data[..to] + [data[from]] == data[..to + 1];
      CopyRepeats(data, from + 1, to + 1, len - 1);
    }
  }

  // ----- The packer -----

  /** Whatever follows `out`, decoding it gets to `done` first. */
  ghost predicate Emits(out: seq<Byte>, done: seq<Byte>, n: nat) {
    forall rest: seq<Byte>, cap: nat :: n <= cap ==> Decode(out + rest, [], cap) == Decode(rest, done, cap)
  }

  lemma EmitNothing(n: nat)
    ensures Emits([], [], n)
  {
    forall rest: seq<Byte>, cap: nat | n <= cap
      ensures Decode([] + rest, [], cap) == Decode(rest, [], cap)
    {
      assert [] + rest == rest;
    }
  }

  lemma EmitSequence(out: seq<Byte>, data: seq<Byte>, anchor: nat, i: nat, ref: nat, len: nat)
    requires anchor <= i && ref < i && i - ref < 65536 && 4 <= len && i + len <= |data| < U32
    requires Emits(out, data[..anchor], |data|)
    requires forall k :: ref <= k < ref + len ==> data[k] == data[k + (i - ref)]
    ensures Emits(out + EncodeSequence(data[anchor..i], i - ref, len), data[..i + len], |data|)
  {
    hide Decode, CopyMatch, EncodeSequence;
    var bytes := EncodeSequence(data[anchor..i], i - ref, len);
    CopyRepeats(data, ref, i, len);
    forall rest: seq<Byte>, cap: nat | |data| <= cap
      ensures Decode(out + bytes + rest, [], cap) == Decode(rest, data[..i + len], cap)
    {
      assert out + bytes + rest == out + (bytes + rest);
      SequenceDecodes(data[anchor..i], i - ref, len, rest, data[..anchor], cap);
      assert data[..anchor] + data[anchor..i] == data[..i];
    }
  }

  lemma EmitLast(out: seq<Byte>, data: seq<Byte>, anchor: nat, cap: nat)
    requires anchor <= |data| <= cap && |data| < U32 && Emits(out, data[..anchor], |data|)
    ensures Decode(out + EncodeLast(data[anchor..]), [], cap) == Some(data)
  {
    LastDecodes(data[anchor..], data[..anchor], cap);
    assert data[..anchor] + data[anchor..] == data;
  }

  lemma {:induction false} RunSize(l: nat)
    ensures |Run(l)| == l / 255 + 1
  {
    if l >= 255 { RunSize(l - 255); }
  }

  /** The loop that writes a length. */
  method PutRun(l: nat) returns (bytes: seq<Byte>)
    ensures bytes == Run(l)
  {
    bytes := [];
    var left := l;
    while left >= 255
      invariant bytes + Run(left) == Run(l)
    {
      bytes := bytes + [255];
      left := left - 255;
    }
    bytes := bytes + [left];
  }

  /** One sequence, as the packer writes it. */
  method PutSequence(lits: seq<Byte>, offset: nat, len: nat) returns (bytes: seq<Byte>)
    requires offset < 65536 && len >= 4
    ensures bytes == EncodeSequence(lits, offset, len) && |bytes| <= 2 * (|lits| + len)
  {
    RunSize(if |lits| >= 15 then |lits| - 15 else 0);
    RunSize(if len >= 19 then len - 19 else 0);
    bytes := [Token(|lits|, len - 4)];
    if |lits| >= 15 {
      var run := PutRun(|lits| - 15);
      bytes := bytes + run;
    }
    bytes := bytes + lits + [offset % 256, offset / 256];
    if len - 4 >= 15 {
      var run := PutRun(len - 4 - 15);
      bytes := bytes + run;
    }
  }

  /**
   `lz4_compress`, with any hash function in place of hash4. What it returns decodes to the data.
   */
  method Compress(data: seq<Byte>, hash: (Byte, Byte, Byte, Byte) -> nat) returns (out: seq<Byte>)
    requires |data| < 0x8000_0000
    requires forall a, b, c, d :: hash(a, b, c, d) < 65536
    ensures forall cap: nat :: |data| <= cap ==> Decode(out, [], cap) == Some(data)
    ensures |out| <= 2 * |data| + 1
  {
    hide Decode, EncodeSequence, EncodeLast, Emits;
    var n := |data|;
    if n == 0 {
      EmptyDecodes();
      return [];
    }
    var htab := new int[65536](_ => -1);
    out := [];
    var anchor, i := 0, 0;
    EmitNothing(n);
    assert data[..0] == [];
    while i + 4 <= n
      invariant 0 <= anchor <= i <= n && |out| <= 2 * anchor
      invariant Emits(out, data[..anchor], n)
      invariant forall k :: 0 <= k < 65536 ==> -1 <= htab[k] < i
      decreases n - i
    {
      var h := hash(data[i], data[i + 1], data[i + 2], data[i + 3]);
      var ref := htab[h];
      htab[h] := i;
      if ref >= 0 && i - ref <= 65535 && data[ref..ref + 4] == data[i..i + 4] {
        FirstFour(data, ref, i);
        var len := 4;
        while i + len < n && data[ref + len] == data[i + len]
          invariant 4 <= len && i + len <= n
          invariant forall k :: ref <= k < ref + len ==> data[k] == data[k + (i - ref)]
        {
          len := len + 1;
        }
        var bytes := PutSequence(data[anchor..i], i - ref, len);
        EmitSequence(out, data, anchor, i, ref, len);
        out := out + bytes;
        i := i + len;
        anchor := i;
        continue;
      }
      i := i + 1;
    }
    var last := PutLast(data[anchor..]);
    forall cap: nat | n <= cap
      ensures Decode(out + last, [], cap) == Some(data)
    {
      EmitLast(out, data, anchor, cap);
    }
    out := out + last;
  }

  method PutLast(lits: seq<Byte>) returns (bytes: seq<Byte>)
    ensures bytes == EncodeLast(lits) && |bytes| <= 2 * |lits| + 1
  {
    RunSize(if |lits| >= 15 then |lits| - 15 else 0);
    bytes := [Token(|lits|, 0)];
    if |lits| >= 15 {
      var run := PutRun(|lits| - 15);
      bytes := bytes + run;
    }
    bytes := bytes + lits;
  }

  lemma EmptyDecodes()
    ensures forall cap: nat :: Decode([], [], cap) == Some([])
  {
  }

  lemma FirstFour(data: seq<Byte>, ref: nat, i: nat)
    requires ref < i && i + 4 <= |data| && data[ref..ref + 4] == data[i..i + 4]
    ensures forall k :: ref <= k < ref + 4 ==> data[k] == data[k + (i - ref)]
  {
    forall k | ref <= k < ref + 4
      ensures data[k] == data[k + (i - ref)]
    {
      assert data[ref..ref + 4][k - ref] == data[i..i + 4][k - ref];
    }
  }

  // ----- The decoder -----

  /** The loop that reads a length, from byte `ip`. Not `ok` is the end of the input. */
  method GetLength(src: seq<Byte>, start: nat, nibble: nat) returns (ok: bool, len: nat, ip: nat)
    requires start <= |src|
    ensures ok <==> Length(nibble, src[start..]).Some?
    ensures ok ==> ip <= |src| && Length(nibble, src[start..]) == Some((len, src[ip..]))
  {
    ok, len, ip := true, nibble, start;
    if len == 15 {
      var s: Byte := 255;
      while s == 255
        invariant start <= ip <= |src|
        invariant s == 255 ==> Extended(src[start..], 15) == Extended(src[ip..], len)
        invariant s != 255 ==> Extended(src[start..], 15) == Some((len, src[ip..]))
        decreases s == 255, |src| - ip
      {
        if ip >= |src| {
          ok := false;
          return;
        }
        s := src[ip];
        assert src[ip..][1..] == src[ip + 1..];
        ip := ip + 1;
        len := (len + s) % U32;
      }
    }
  }

  method CopyLiterals(src: seq<Byte>, ip: nat, dst: array<Byte>, op: nat, len: nat)
    requires ip + len <= |src| && op + len <= dst.Length
    modifies dst
    ensures dst[..op + len] == old(dst[..op]) + src[ip..ip + len]
  {
    for i := 0 to len
      invariant dst[..op + i] == old(dst[..op]) + src[ip..ip + i]
    {
      dst[op + i] := src[ip + i];
    }
  }

  /** Source and target overlap when the offset is smaller than the length. */
  method CopyBack(dst: array<Byte>, op: nat, off: nat, len: nat)
    requires 0 < off <= op && op + len <= dst.Length
    modifies dst
    ensures dst[..op + len] == CopyMatch(old(dst[..op]), off, len)
  {
    for i := 0 to len
      invariant CopyMatch(dst[..op + i], off, len - i) == CopyMatch(old(dst[..op]), off, len)
    {
      ghost var before := dst[..op + i];
      dst[op + i] := dst[op - off + i];
      assert dst[..op + i + 1] == before + [before[|before| - off]];
    }
  }

  /** A C int from an unsigned 32-bit value. */
  function AsInt(x: nat): int
    requires x < U32
  {
    if x < 0x8000_0000 then x else x - U32
  }

  /** One turn of the decoder's loop up to the match. */
  method GetLiterals(src: seq<Byte>, start: nat, nibble: nat, dst: array<Byte>, out: nat) returns (ok: bool, ip: nat, op: nat)
    requires start <= |src| && out <= dst.Length
    modifies dst
    ensures var r := Length(nibble, src[start..]);
            && (ok <==> r.Some? && r.value.0 <= |r.value.1| && out + r.value.0 <= dst.Length)
            && (ok ==> && ip <= |src| && op == out + r.value.0 <= dst.Length
                       && dst[..op] == old(dst[..out]) + r.value.1[..r.value.0] && src[ip..] == r.value.1[r.value.0..])
  {
    var len, at;
    ok, len, at := GetLength(src, start, nibble);
    if !ok || at + len > |src| || out + len > dst.Length {
      return false, 0, 0;
    }
    CopyLiterals(src, at, dst, out, len);
    assert src[at..][..len] == src[at..at + len] && src[at..][len..] == src[at + len..];
    ip, op := at + len, out + len;
  }

  /** The rest of the turn. */
  method GetMatch(src: seq<Byte>, start: nat, nibble: nat, dst: array<Byte>, out: nat) returns (ok: bool, ip: nat, op: nat)
    requires start < |src| && out <= dst.Length
    modifies dst
    ensures var r := Match(src[start..], nibble, old(dst[..out]), dst.Length);
            ok == r.Some? && (ok ==> ip <= |src| && op <= dst.Length && r == Some((src[ip..], dst[..op])))
  {
    hide CopyMatch;
    if start + 2 > |src| {
      return false, 0, 0;
    }
    var off := Offset(src[start], src[start + 1]);
    assert src[start..][2..] == src[start + 2..];
    if off == 0 || off > out {
      return false, 0, 0;
    }
    var len;
    ok, len, ip := GetLength(src, start + 2, nibble);
    if !ok {
      return false, 0, 0;
    }
    len := (len + 4) % U32;
    if out + len > dst.Length {
      return false, 0, 0;
    }
    CopyBack(dst, out, off, len);
    op := out + len;
  }

  /** `lz4_decompress`, on any input. */
  method Decompress(src: seq<Byte>, dst: array<Byte>) returns (ret: int)
    requires |src| < U32 && dst.Length < U32
    modifies dst
    ensures match Decode(src, [], dst.Length)
            case None => ret == -1
            case Some(out) => |out| <= dst.Length && ret == AsInt(|out|) && dst[..|out|] == out
  {
    hide Length, Match;
    var ip: nat, op: nat := 0, 0;
    assert src[0..] == src;
    while ip < |src|
      invariant ip <= |src| && op <= dst.Length
      invariant Decode(src[ip..], dst[..op], dst.Length) == Decode(src, [], dst.Length)
      decreases |src| - ip
    {
      ghost var was := ip;
      var token, ok := src[ip], true;
      assert src[ip..][0] == token && src[ip..][1..] == src[ip + 1..];
      ok, ip, op := GetLiterals(src, ip + 1, token / 16, dst, op);
      if !ok {
        return -1;
      }
      if ip >= |src| {
        break;
      }
      ok, ip, op := GetMatch(src, ip, token % 16, dst, op);
      if !ok {
        return -1;
      }
      assert |src[ip..]| < |src[was..]|;
    }
    assert src[ip..] == [];
    ret := AsInt(op);
  }

  /** The round trip: decoding what the packer wrote gives back the data. */
  method RoundTrip(data: seq<Byte>, hash: (Byte, Byte, Byte, Byte) -> nat, dst: array<Byte>)
    returns (ret: int)
    requires |data| < 0x8000_0000 && |data| <= dst.Length < U32
    requires forall a, b, c, d :: hash(a, b, c, d) < 65536
    modifies dst
    ensures ret == |data| && dst[..|data|] == data
  {
    var packed := Compress(data, hash);
    ret := Decompress(packed, dst);
  }
}
