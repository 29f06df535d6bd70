/** Powers of two, and blocks aligned to them. */
module Powers {
  function Pow2(n: nat): (r: nat)
    ensures r >= 1
  {
    if n == 0 then 1 else 2 * Pow2(n - 1)
  }

  lemma {:induction false} Pow2Mono(a: nat, b: nat)
    requires a <= b
    ensures Pow2(a) <= Pow2(b)
    decreases b
  {
    if a < b { Pow2Mono(a, b - 1); }
  }

  lemma {:induction false} PowSum(a: nat, b: nat)
    ensures Pow2(a + b) == Pow2(a) * Pow2(b)
  {
    if a > 0 {
      PowSum(a - 1, b);
      assert Pow2(a + b) == 2 * Pow2(a - 1 + b);
      assert 2 * (Pow2(a - 1) * Pow2(b)) == (2 * Pow2(a - 1)) * Pow2(b);
    }
  }

  /** `x` is a multiple of 2^o. */
  predicate Aligned(x: nat, o: nat) { x % Pow2(o) == 0 }

  /** The neighbour with which the aligned block at `x` makes one of twice the size: `x` XOR 2^o. */
  function Buddy(x: nat, o: nat): int {
    if (x / Pow2(o)) % 2 == 0 then x + Pow2(o) else x - Pow2(o)
  }

  lemma MulLess(a: int, b: int, n: nat)
    requires a * n < b * n
    ensures a < b
  {
    assert b <= a ==> b * n <= a * n;
  }

  lemma MulLeast(a: int, b: int, n: nat)
    requires a < b
    ensures a * n + n <= b * n
  {
    assert (a + 1) * n <= b * n;
  }

  lemma Divides(x: nat, o: nat)
    requires Aligned(x, o)
    ensures x == (x / Pow2(o)) * Pow2(o)
  {
  }

  lemma Quotient(x: nat, n: nat, q: nat, r: nat)
    requires r < n && x == q * n + r
    ensures x / n == q && x % n == r
  {
    var p := x / n;
    assert x == p * n + x % n;
    if p < q { MulLeast(p, q, n); }
    if q < p { MulLeast(q, p, n); }
  }

  lemma MultipleAligned(q: nat, n: nat)
    requires n > 0
    ensures (q * n) % n == 0 && (q * n) / n == q
  {
    Quotient(q * n, n, q, 0);
  }

  /** Different multiples of 2^o are at least 2^o apart. */
  lemma AlignedGap(u: nat, w: nat, o: nat)
    requires Aligned(u, o) && Aligned(w, o) && u < w
    ensures u + Pow2(o) <= w
  {
    var i, j := u / Pow2(o), w / Pow2(o);
    Divides(u, o);
    Divides(w, o);
    MulLess(i, j, Pow2(o));
    MulLeast(i, j, Pow2(o));
  }

  lemma AlignedDown(x: nat, o: nat)
    requires Aligned(x, o + 1)
    ensures Aligned(x, o) && Aligned(x + Pow2(o), o)
  {
    var q, n := x / Pow2(o + 1), Pow2(o);
    Divides(x, o + 1);
    assert x == (2 * q) * n && x + n == (2 * q + 1) * n;
    MultipleAligned(2 * q, n);
    MultipleAligned(2 * q + 1, n);
  }

  lemma {:induction false} AlignedAll(x: nat, o: nat, c: nat)
    requires Aligned(x, o) && c <= o
    ensures Aligned(x, c)
    decreases o
  {
    if c < o {
      AlignedDown(x, o - 1);
      AlignedAll(x, o - 1, c);
    }
  }

  lemma AlignedSum(x: nat, y: nat, o: nat)
    requires Aligned(x, o) && Aligned(y, o)
    ensures Aligned(x + y, o)
  {
    var i, j, n := x / Pow2(o), y / Pow2(o), Pow2(o);
    Divides(x, o);
    Divides(y, o);
    assert x + y == (i + j) * n;
    MultipleAligned(i + j, n);
  }

  lemma {:induction false} PowerAligned(c: nat, o: nat)
    requires o <= c
    ensures Aligned(Pow2(c), o)
    decreases c
  {
    if o < c {
      PowerAligned(c - 1, o);
      AlignedSum(Pow2(c - 1), Pow2(c - 1), o);
    } else {
      MultipleAligned(1, Pow2(o));
    }
  }

  /** Buddies are the two halves of one aligned block of the next order. */
  lemma BuddyHalves(x: nat, o: nat)
    requires Aligned(x, o)
    ensures var b := Buddy(x, o);
            && b >= 0 && Aligned(b, o) && Buddy(b, o) == x
            && (if Aligned(x, o + 1) then b == x + Pow2(o) && !Aligned(b, o + 1)
                else b == x - Pow2(o) && Aligned(b, o + 1))
  {
    hide Pow2, Aligned, Buddy;
    var k := x / Pow2(o) / 2;
    EvenOrOdd(x, o);
    if x == 2 * k * Pow2(o) {
      EvenAligned(x, o, k);
    } else {
      EvenAligned(x - Pow2(o), o, k);
    }
  }

  lemma EvenOrOdd(x: nat, o: nat)
    requires Aligned(x, o)
    ensures var k, n := x / Pow2(o) / 2, Pow2(o);
            x == 2 * k * n || (x >= n && x - n == 2 * k * n)
  {
    var q, n := x / Pow2(o), Pow2(o);
    Divides(x, o);
    var k := q / 2;
    hide Pow2;
    if q == 2 * k + 1 { Products(k, n); }
  }

  lemma EvenAligned(x: nat, o: nat, k: nat)
    requires x == 2 * k * Pow2(o)
    ensures Aligned(x, o) && Aligned(x, o + 1) && Aligned(x + Pow2(o), o) && !Aligned(x + Pow2(o), o + 1)
    ensures Buddy(x, o) == x + Pow2(o) && Buddy(x + Pow2(o), o) == x
  {
    var n := Pow2(o);
    assert Pow2(o + 1) == 2 * n;
    hide Pow2;
    Products(k, n);
    MultipleAligned(k, 2 * n);
    MultipleAligned(2 * k, n);
    MultipleAligned(2 * k + 1, n);
    OddUnaligned(x, o);
  }

  lemma Products(k: nat, n: nat)
    ensures 2 * k * n == k * (2 * n) && 2 * k * n + n == (2 * k + 1) * n
  {
  }

  lemma OddUnaligned(x: nat, o: nat)
    requires Aligned(x, o + 1)
    ensures !Aligned(x + Pow2(o), o + 1)
  {
    if Aligned(x + Pow2(o), o + 1) { AlignedGap(x, x + Pow2(o), o + 1); }
  }

  /** An aligned block that has the head of another aligned block of its order or more starts there. */
  lemma HeadOfBlock(x: nat, o: nat, h: nat, c: nat)
    requires Aligned(x, o) && Aligned(h, c) && c <= o && h <= x < h + Pow2(c)
    ensures x == h
  {
    AlignedAll(x, o, c);
    if h < x { AlignedGap(h, x, c); }
  }

  /** An aligned block that has part of an aligned block of at most its order has all of it. */
  lemma BlockInside(x: nat, o: nat, h: nat, c: nat, p: nat)
    requires Aligned(x, o) && Aligned(h, c) && o <= c && x <= p < x + Pow2(o) && h <= p < h + Pow2(c)
    ensures h <= x && x + Pow2(o) <= h + Pow2(c)
  {
    AlignedAll(h, c, o);
    PowerAligned(c, o);
    AlignedSum(h, Pow2(c), o);
    if x < h { AlignedGap(x, h, o); }
    AlignedGap(x, h + Pow2(c), o);
  }

  /** A larger aligned block that has one buddy has the other too. */
  lemma BuddyInside(x: nat, o: nat, h: nat, c: nat)
    requires Aligned(x, o) && Aligned(h, c) && o < c && Buddy(x, o) >= 0 && h <= Buddy(x, o) < h + Pow2(c)
    ensures h <= x < h + Pow2(c)
  {
    BuddyHalves(x, o);
    var b := Buddy(x, o);
    var lo := if x < b then x else b;
    BlockInside(lo, o + 1, h, c, b);
  }
}
