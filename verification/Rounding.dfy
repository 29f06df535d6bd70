/** Rounding to multiples. */
module Rounding {
  import opened Powers

  function DownTo(x: nat, a: nat): (r: nat)
    requires a > 0
    ensures r % a == 0 && r <= x < r + a
  {
    MultipleAligned(x / a, a);
    (x / a) * a
  }

  function UpTo(x: nat, a: nat): (r: nat)
    requires a > 0
    ensures r % a == 0 && x <= r < x + a
  {
    DownTo(x + a - 1, a)
  }

  /** Different multiples of `a` are at least `a` apart. */
  lemma MultipleGap(x: nat, y: nat, a: nat)
    requires a > 0 && x % a == 0 && y % a == 0 && x < y
    ensures x + a <= y
  {
    assert x == (x / a) * a && y == (y / a) * a;
    MulLess(x / a, y / a, a);
    MulLeast(x / a, y / a, a);
  }

  lemma MultipleBack(x: nat, a: nat)
    requires a > 0 && x % a == 0 && x >= a
    ensures (x - a) % a == 0
  {
    assert x == (x / a) * a;
    assert x - a == (x / a - 1) * a;
    MultipleAligned(x / a - 1, a);
  }
}
