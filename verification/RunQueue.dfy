/**
 The O(1) run queue of kernel/sched_internal.h: 32 first-in first-out lists and a bitmap of those
 that are not empty. Smaller numbers are higher priorities.
 */
module RunQueue {
  import opened Distinct
  import opened Options
  import opened Powers

  /** kNumPriorities. */
  const PRIORITIES: nat := 32

  type Tid = nat
  type Lists = s: seq<seq<Tid>> | |s| == PRIORITIES witness seq(PRIORITIES, _ => [])

  // ----- What the queue is -----

  function Put(q: Lists, t: Tid, p: nat): Lists
    requires p < PRIORITIES
  {
    q[p := q[p] + [t]]
  }

  function Take(q: Lists, t: Tid, p: nat): Lists
    requires p < PRIORITIES
  {
    q[p := Remove(q[p], t)]
  }

  /** The first level from `p` on that is not empty, or 32. */
  function Level(q: Lists, p: nat): (r: nat)
    requires p <= PRIORITIES
    ensures p <= r <= PRIORITIES && (forall i :: p <= i < r ==> q[i] == []) && (r < PRIORITIES ==> q[r] != [])
    decreases PRIORITIES - p
  {
    if p == PRIORITIES || q[p] != [] then p else Level(q, p + 1)
  }

  /** Strict priority: the oldest task of the highest level that has any. */
  function Pick(q: Lists): Option<Tid> {
    var p := Level(q, 0);
    if p == PRIORITIES then None else Some(q[p][0])
  }

  // ----- Bits -----

  predicate Bit(b: nat, p: nat) { if p == 0 then b % 2 == 1 else Bit(b / 2, p - 1) }

  /** `b | (1 << p)`. */
  function SetBit(b: nat, p: nat): nat {
    if p == 0 then b / 2 * 2 + 1 else SetBit(b / 2, p - 1) * 2 + b % 2
  }

  /** `b & ~(1 << p)`. */
  function ClearBit(b: nat, p: nat): nat {
    if p == 0 then b / 2 * 2 else ClearBit(b / 2, p - 1) * 2 + b % 2
  }

  lemma Halves(x: nat, r: nat)
    requires r < 2
    ensures (x * 2 + r) / 2 == x && (x * 2 + r) % 2 == r
  {
  }

  lemma {:induction false} SetBitAt(b: nat, p: nat, q: nat)
    ensures Bit(SetBit(b, p), q) <==> q == p || Bit(b, q)
    decreases p
  {
    Halves(SetBit(b / 2, if p > 0 then p - 1 else 0), b % 2);
    Halves(b / 2, 1);
    if p > 0 && q > 0 { SetBitAt(b / 2, p - 1, q - 1); }
  }

  lemma {:induction false} ClearBitAt(b: nat, p: nat, q: nat)
    ensures Bit(ClearBit(b, p), q) <==> q != p && Bit(b, q)
    decreases p
  {
    Halves(ClearBit(b / 2, if p > 0 then p - 1 else 0), b % 2);
    Halves(b / 2, 0);
    if p > 0 && q > 0 { ClearBitAt(b / 2, p - 1, q - 1); }
  }

  /** Only the bits below `w` can be set. */
  ghost predicate Narrow(b: nat, w: nat) {
    b < Pow2(w)
  }

  lemma {:induction false} BitsNarrow(b: nat, p: nat, w: nat)
    requires Narrow(b, w) && p < w
    ensures Narrow(SetBit(b, p), w) && Narrow(ClearBit(b, p), w)
    decreases p
  {
    if p > 0 { BitsNarrow(b / 2, p - 1, w - 1); }
  }

  lemma {:induction false} HighBit(b: nat, w: nat, q: nat)
    requires Narrow(b, w) && w <= q
    ensures !Bit(b, q)
    decreases q
  {
    if q > 0 { HighBit(b / 2, if w > 0 then w - 1 else 0, q - 1); }
  }

  // ----- Counting trailing zeros -----

  /** `n` is the lowest bit of `v`. */
  ghost predicate LowestBit(v: nat, n: nat) {
    Bit(v, n) && forall q: nat :: q < n ==> !Bit(v, q)
  }

  lemma {:induction false} ShiftedBit(u: nat, k: nat, q: nat)
    ensures Bit(u * Pow2(k), q) <==> q >= k && Bit(u, q - k)
    decreases k
  {
    if k > 0 {
      assert u * Pow2(k) == 2 * (u * Pow2(k - 1));
      if q > 0 { ShiftedBit(u, k - 1, q - 1); }
    }
  }

  lemma OddTimes(u: nat, n: nat)
    requires u % 2 == 1
    ensures LowestBit(u * Pow2(n), n)
  {
    forall q: nat
      ensures Bit(u * Pow2(n), q) <==> q >= n && Bit(u, q - n)
    {
      ShiftedBit(u, n, q);
    }
  }

  lemma Widths()
    ensures Pow2(1) == 2 && Pow2(2) == 4 && Pow2(4) == 16
    ensures Pow2(8) == 256 && Pow2(16) == 0x10000 && Pow2(32) == 0x1_0000_0000
  {
    assert Pow2(4) == 16;
    PowSum(4, 4);
    PowSum(8, 8);
    PowSum(16, 16);
  }

  /** The search has moved `val` right by `n` bits, all of them zero, and some of the next `k` is not. */
  ghost predicate Searched(val: nat, v: nat, n: nat, k: nat) {
    v * Pow2(n) == val && v % Pow2(k) != 0
  }

  /** One step: if the lower half of the next 2k bits is zero, move it away. */
  lemma SearchStep(val: nat, v: nat, n: nat, k: nat, w: nat)
    requires Searched(val, v, n, 2 * k) && w == Pow2(k)
    ensures if v % w == 0 then Searched(val, v / w, n + k, k) else Searched(val, v, n, k)
  {
    hide Pow2;
    if v % w == 0 {
      PowSum(k, n);
      PowSum(k, k);
      MoveRight(v, w, Pow2(n));
      if (v / w) % w == 0 { DivideTwice(v, w); }
    }
  }

  lemma MoveRight(v: nat, w: nat, m: nat)
    requires w > 0 && v % w == 0
    ensures (v / w) * (w * m) == v * m
  {
    var u := v / w;
    assert v == u * w;
    assert u * (w * m) == (u * w) * m;
  }

  lemma DivideTwice(v: nat, w: nat)
    requires w > 0 && v % w == 0 && (v / w) % w == 0
    ensures v % (w * w) == 0
  {
    var u := v / w / w;
    assert v / w == u * w && v == (u * w) * w;
    assert (u * w) * w == u * (w * w);
    assert w * w > 0;
    MultipleAligned(u, w * w);
  }

  lemma SearchStart(val: nat)
    requires 0 < val < 0x1_0000_0000
    ensures Searched(val, val, 0, 32)
  {
    Widths();
  }

  lemma SearchEnd(val: nat, v: nat, n: nat)
    requires Searched(val, v, n, 1) && val < 0x1_0000_0000
    ensures LowestBit(val, n) && n < 32
  {
    OddTimes(v, n);
    LowestNarrow(val, n);
  }

  /** `ctz32`. */
  method Ctz32(val: nat) returns (n: nat)
    requires 0 < val < 0x1_0000_0000
    ensures LowestBit(val, n) && n < 32
  {
    hide Pow2, LowestBit, Searched;
    Widths();
    SearchStart(val);
    var v := val;
    n := 0;
    SearchStep(val, v, n, 16, 0x10000);
    if v % 0x10000 == 0 {
      n, v := n + 16, v / 0x10000;
    }
    SearchStep(val, v, n, 8, 0x100);
    if v % 0x100 == 0 {
      n, v := n + 8, v / 0x100;
    }
    SearchStep(val, v, n, 4, 0x10);
    if v % 0x10 == 0 {
      n, v := n + 4, v / 0x10;
    }
    SearchStep(val, v, n, 2, 4);
    if v % 4 == 0 {
      n, v := n + 2, v / 4;
    }
    SearchStep(val, v, n, 1, 2);
    if v % 2 == 0 {
      n, v := n + 1, v / 2;
    }
    SearchEnd(val, v, n);
  }

  lemma LowestNarrow(v: nat, n: nat)
    requires LowestBit(v, n) && v < 0x1_0000_0000
    ensures n < 32
  {
    Widths();
    if n >= 32 { HighBit(v, 32, n); }
  }

  // ----- The queue -----

  class O1RunQueue {
    var bitmap: nat
    var queues: Lists
    var nrRunning: nat

    /** Bit `p` is set if and only if list `p` is not empty. */
    ghost predicate Valid()
      reads this
    {
      && Narrow(bitmap, PRIORITIES) && nrRunning == Total(queues)
      && forall p :: 0 <= p < PRIORITIES ==> (Bit(bitmap, p) <==> queues[p] != [])
    }

    constructor ()
      ensures Valid() && queues == seq(PRIORITIES, _ => [])
    {
      bitmap, nrRunning := 0, 0;
      queues := seq(PRIORITIES, _ => []);
      new;
      Empty(queues);
    }

    method Enqueue(t: Tid, prio: nat)
      requires Valid() && prio < PRIORITIES
      modifies this
      ensures Valid() && queues == Put(old(queues), t, prio)
    {
      TotalSet(queues, prio, queues[prio] + [t]);
      BitsNarrow(bitmap, prio, PRIORITIES);
      SetBits(bitmap, prio);
      queues := queues[prio := queues[prio] + [t]];
      bitmap := SetBit(bitmap, prio);
      nrRunning := nrRunning + 1;
    }

    method Dequeue(t: Tid, prio: nat)
      requires Valid() && prio < PRIORITIES && t in queues[prio]
      modifies this
      ensures Valid() && queues == Take(old(queues), t, prio)
    {
      RemoveLength(queues[prio], t);
      TotalSet(queues, prio, Remove(queues[prio], t));
      BitsNarrow(bitmap, prio, PRIORITIES);
      ClearBits(bitmap, prio);
      queues := queues[prio := Remove(queues[prio], t)];
      if queues[prio] == [] {
        bitmap := ClearBit(bitmap, prio);
      }
      if nrRunning > 0 {
        nrRunning := nrRunning - 1;
      }
    }

    /** The bitmap finds what a scan of all the levels would find. */
    method PickNext() returns (r: Option<Tid>)
      requires Valid()
      ensures r == Pick(queues)
    {
      if bitmap == 0 {
        NoBits();
        return None;
      }
      Widths();
      var prio := Ctz32(bitmap);
      return Some(queues[prio][0]);
    }
  }

  function Total(q: seq<seq<Tid>>): nat { if q == [] then 0 else |q[0]| + Total(q[1..]) }

  lemma {:induction false} TotalSet(q: seq<seq<Tid>>, p: nat, l: seq<Tid>)
    requires p < |q|
    ensures Total(q[p := l]) == Total(q) - |q[p]| + |l|
  {
    if p > 0 {
      TotalSet(q[1..], p - 1, l);
      assert q[p := l][1..] == q[1..][p - 1 := l];
    }
  }

  lemma {:induction false} Empty(q: seq<seq<Tid>>)
    requires forall i :: 0 <= i < |q| ==> q[i] == []
    ensures Total(q) == 0 && forall p: nat :: !Bit(0, p)
  {
    if q != [] { Empty(q[1..]); }
    NoBits();
  }

  lemma NoBits()
    ensures forall p: nat :: !Bit(0, p)
  {
    forall p: nat
      ensures !Bit(0, p)
    {
      NoBit(p);
    }
  }

  lemma {:induction false} NoBit(p: nat)
    ensures !Bit(0, p)
  {
    if p > 0 { NoBit(p - 1); }
  }

  lemma SetBits(b: nat, p: nat)
    ensures forall q: nat :: Bit(SetBit(b, p), q) <==> q == p || Bit(b, q)
  {
    forall q: nat
      ensures Bit(SetBit(b, p), q) <==> q == p || Bit(b, q)
    {
      SetBitAt(b, p, q);
    }
  }

  lemma ClearBits(b: nat, p: nat)
    ensures forall q: nat :: Bit(ClearBit(b, p), q) <==> q != p && Bit(b, q)
  {
    forall q: nat
      ensures Bit(ClearBit(b, p), q) <==> q != p && Bit(b, q)
    {
      ClearBitAt(b, p, q);
    }
  }

  // ----- First in, first out -----

  /** What happens to a run queue: a task comes, or the next one is picked and taken off. */
  datatype Event = Come(t: Tid, prio: nat) | Go

  /** The queue after some events, and the tasks that were picked. */
  function After(q: Lists, es: seq<Event>): (r: (Lists, seq<Tid>))
    decreases |es|
  {
    if es == [] then (q, [])
    else
      match es[0]
      case Come(t, p) => if p < PRIORITIES then After(Put(q, t, p), es[1..]) else After(q, es[1..])
      case Go =>
        match Pick(q)
        case None => After(q, es[1..])
        case Some(t) =>
          var p := Level(q, 0);
          var (q', picked) := After(q[p := q[p][1..]], es[1..]);
          (q', [t] + picked)
  }

  function Gos(es: seq<Event>): nat {
    if es == [] then 0 else (if es[0].Go? then 1 else 0) + Gos(es[1..])
  }

  /**
   A task with `k` tasks ahead of it on its level is the (k+1)th to be picked, whatever comes in the
   meantime, as long as nothing on a higher level does.
   */
  lemma {:induction false} PickedInTurn(q: Lists, es: seq<Event>, p: nat, k: nat)
    requires p < PRIORITIES && k < |q[p]| && (forall i :: 0 <= i < p ==> q[i] == [])
    requires forall i :: 0 <= i < |es| && es[i].Come? ==> es[i].prio >= p
    requires Gos(es) > k
    ensures |After(q, es).1| > k && After(q, es).1[k] == q[p][k]
    decreases |es|
  {
    var rest := es[1..];
    match es[0]
    case Come(t, r) =>
      PickedInTurn(if r < PRIORITIES then Put(q, t, r) else q, rest, p, k);
    case Go =>
      assert Level(q, 0) == p;
      if k > 0 {
        PickedInTurn(q[p := q[p][1..]], rest, p, k - 1);
      }
  }
}
