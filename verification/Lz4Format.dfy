/**
 The LZ4 block format written down on its own, and the theorem that the decoder accepts exactly the blocks of
 that format and gives exactly the bytes they stand for.
 */
module Lz4Format {
  import opened Basics
  import opened Lz4
  import opened Options

  type Nibble = x: nat | x < 16

  /**
   A block: sequences, then literals alone or nothing. A length stands for itself in 32 bits; `copy` are the
   bytes that a match adds. The low half of the last token is not used.
   */
  datatype Block =
    | Stop
    | Last(run: nat, lits: seq<Byte>, unused: Nibble)
    | Next(run: nat, lits: seq<Byte>, lo: Byte, hi: Byte, code: nat, copy: seq<Byte>, rest: Block)

  /** How a block is written. */
  function Bytes(b: Block): seq<Byte> {
    match b
    case Stop => []
    case Last(run, lits, unused) => [Min(run, 15) * 16 + unused] + (LengthBytes(run) + lits)
    case Next(run, lits, lo, hi, code, _, rest) =>
      [Min(run, 15) * 16 + Min(code, 15)] + (LengthBytes(run) + (lits + ([lo, hi] + (LengthBytes(code) + Bytes(rest)))))
  }

  /** Every byte of `copy`, put after `out`, is the one `off` places before it. */
  ghost predicate Repeats(out: seq<Byte>, off: nat, copy: seq<Byte>) {
    0 < off <= |out| && forall k :: 0 <= k < |copy| ==> copy[k] == (out + copy)[|out| + k - off]
  }

  /** What a block makes of the output so far, within `cap` bytes. */
  ghost predicate Yields(b: Block, out: seq<Byte>, cap: nat, r: seq<Byte>) {
    match b
    case Stop => r == out
    case Last(run, lits, _) => |lits| == run % U32 && |out| + |lits| <= cap && r == out + lits
    case Next(run, lits, lo, hi, code, copy, rest) =>
      && |lits| == run % U32 && |copy| == (code + 4) % U32 && |out| + |lits| <= cap && |out| + |lits| + |copy| <= cap
      && Repeats(out + lits, lo + 256 * hi, copy) && Yields(rest, out + lits + copy, cap, r)
  }

  // ----- Lengths -----

  /** Every length that the decoder reads was written like that. */
  lemma {:induction false} RunWritten(src: seq<Byte>, len: nat) returns (x: nat)
    requires Extended(src, len).Some?
    ensures Extended(src, len).value.0 == (len + x) % U32 && src == Run(x) + Extended(src, len).value.1
  {
    assert src == [src[0]] + src[1..];
    if src[0] == 255 {
      var y := RunWritten(src[1..], (len + 255) % U32);
      WordSum(len + 255, y);
      x := y + 255;
      RunMore(y, Extended(src, len).value.1);
    } else {
      x := src[0];
    }
  }

  lemma RunMore(y: nat, rest: seq<Byte>)
    ensures Run(y + 255) + rest == [255] + (Run(y) + rest)
  {
  }

  lemma LengthWritten(nibble: Nibble, src: seq<Byte>) returns (x: nat)
    requires Length(nibble, src).Some?
    ensures Min(x, 15) == nibble && Length(nibble, src).value.0 == x % U32
    ensures src == LengthBytes(x) + Length(nibble, src).value.1
  {
    if nibble == 15 {
      var y := RunWritten(src, 15);
      x := y + 15;
    } else {
      x := nibble;
      assert src == [] + src;
    }
  }

  // ----- Matches -----

  /** The copy is the one sequence of its length that repeats the output. */
  lemma {:induction false} CopyOnly(out: seq<Byte>, off: nat, copy: seq<Byte>)
    requires Repeats(out, off, copy)
    ensures CopyMatch(out, off, |copy|) == out + copy
    decreases |copy|
  {
    if copy == [] {
      assert out + copy == out;
    } else {
      var out', more := out + [copy[0]], copy[1..];
      assert out + copy == out' + more;
      forall k | 0 <= k < |more|
        ensures more[k] == (out' + more)[|out'| + k - off]
      {
        assert more[k] == copy[k + 1];
      }
      CopyOnly(out', off, more);
    }
  }

  lemma {:induction false} CopyRepeatsOut(out: seq<Byte>, off: nat, len: nat)
    requires 0 < off <= |out|
    ensures var r := CopyMatch(out, off, len); r == out + r[|out|..] && Repeats(out, off, r[|out|..])
    decreases len
  {
    var r := CopyMatch(out, off, len);
    assert r == out + r[|out|..];
    if len > 0 {
      var out' := out + [out[|out| - off]];
      CopyRepeatsOut(out', off, len - 1);
      forall k | 0 <= k < len
        ensures r[|out|..][k] == r[|out| + k - off]
      {
        if k == 0 {
          assert r[..|out'|][|out|] == out'[|out|] && r[..|out'|][|out| - off] == out'[|out| - off];
        } else {
          assert r[|out'|..][k - 1] == (out' + r[|out'|..])[|out'| + (k - 1) - off];
          assert r == out' + r[|out'|..];
        }
      }
    }
  }

  // ----- The decoder accepts the format -----

  lemma {:induction false} Accepted(b: Block, out: seq<Byte>, cap: nat, r: seq<Byte>)
    requires Yields(b, out, cap, r)
    ensures Decode(Bytes(b), out, cap) == Some(r)
  {
    hide Repeats, CopyMatch, Length, LengthBytes, Extended, Match;
    match b {
      case Stop =>
      case Last(run, lits, unused) =>
        LengthRead(run, lits);
        Halves(run, unused);
        assert Bytes(b)[1..] == LengthBytes(run) + lits;
      case Next(run, lits, lo, hi, code, copy, rest) =>
        var tail := [lo, hi] + (LengthBytes(code) + Bytes(rest));
        LengthRead(run, lits + tail);
        Halves(run, Min(code, 15));
        assert Bytes(b)[1..] == LengthBytes(run) + (lits + tail);
        assert (lits + tail)[|lits|..] == tail && (lits + tail)[..|lits|] == lits;
        MatchAccepted(lo, hi, code, copy, Bytes(rest), out + lits, cap);
        Accepted(rest, out + lits + copy, cap, r);
    }
  }

  lemma Halves(run: nat, low: nat)
    requires low < 16
    ensures (Min(run, 15) * 16 + low) / 16 == Min(run, 15) && (Min(run, 15) * 16 + low) % 16 == low
  {
  }

  lemma MatchAccepted(lo: Byte, hi: Byte, code: nat, copy: seq<Byte>, rest: seq<Byte>, out: seq<Byte>, cap: nat)
    requires Repeats(out, lo + 256 * hi, copy) && |copy| == (code + 4) % U32 && |out| + |copy| <= cap
    ensures Match([lo, hi] + (LengthBytes(code) + rest), Min(code, 15), out, cap) == Some((rest, out + copy))
  {
    hide CopyMatch, Length, LengthBytes;
    var src := [lo, hi] + (LengthBytes(code) + rest);
    assert src[2..] == LengthBytes(code) + rest;
    LengthRead(code, rest);
    CopyOnly(out, lo + 256 * hi, copy);
    assert (code % U32 + 4) % U32 == (code + 4) % U32;
  }

  // ----- The decoder accepts nothing else -----

  lemma {:induction false} Parsed(src: seq<Byte>, out: seq<Byte>, cap: nat) returns (b: Block)
    requires Decode(src, out, cap).Some?
    ensures Bytes(b) == src && Yields(b, out, cap, Decode(src, out, cap).value)
    decreases |src|
  {
    hide Repeats, CopyMatch, Length, LengthBytes, Extended, Match;
    if src == [] { return Stop; }
    var run := LengthWritten(src[0] / 16, src[1..]);
    var len, more := Length(src[0] / 16, src[1..]).value.0, Length(src[0] / 16, src[1..]).value.1;
    assert src == [src[0]] + src[1..];
    if len == |more| {
      return Last(run, more, src[0] % 16);
    }
    var lits, tail := more[..len], more[len..];
    assert more == lits + tail;
    var code, copy, rest := MatchParsed(tail, src[0] % 16, out + lits, cap);
    var next := Parsed(rest, out + lits + copy, cap);
    b := Next(run, lits, tail[0], tail[1], code, copy, next);
  }

  lemma MatchParsed(src: seq<Byte>, nibble: Nibble, out: seq<Byte>, cap: nat)
    returns (code: nat, copy: seq<Byte>, rest: seq<Byte>)
    requires Match(src, nibble, out, cap).Some?
    ensures Match(src, nibble, out, cap) == Some((rest, out + copy)) && |src| >= 2 && |rest| < |src|
    ensures src == [src[0], src[1]] + (LengthBytes(code) + rest) && Min(code, 15) == nibble
    ensures |copy| == (code + 4) % U32 && |out| + |copy| <= cap && Repeats(out, Offset(src[0], src[1]), copy)
  {
    hide Repeats, CopyMatch, Length, LengthBytes;
    code := LengthWritten(nibble, src[2..]);
    rest := Length(nibble, src[2..]).value.1;
    var off, len := Offset(src[0], src[1]), (code % U32 + 4) % U32;
    assert len == (code + 4) % U32;
    CopyRepeatsOut(out, off, len);
    copy := CopyMatch(out, off, len)[|out|..];
    assert src == [src[0], src[1]] + src[2..];
  }

  /** A block decodes to `r` exactly when it is written in the format and stands for `r`. */
  lemma DecodesIff(src: seq<Byte>, out: seq<Byte>, cap: nat, r: seq<Byte>)
    ensures Decode(src, out, cap) == Some(r) <==> exists b :: Bytes(b) == src && Yields(b, out, cap, r)
  {
    hide Decode, Bytes, Yields;
    if Decode(src, out, cap) == Some(r) {
      var b := Parsed(src, out, cap);
    }
    forall b | Bytes(b) == src && Yields(b, out, cap, r)
      ensures Decode(src, out, cap) == Some(r)
    {
      Accepted(b, out, cap, r);
    }
  }
}
