// Facts about multiplication and Euclidean division used by the counting
// arguments; each is small so that the solver handles it on its own.

module Arith {

  lemma DivMod(x: nat, w: nat)
    requires w >= 1
    ensures x == (x / w) * w + x % w && 0 <= x % w < w
  {
  }

  lemma MulLess(a: nat, b: nat, w: nat)
    requires w >= 1
    ensures a < b <==> a * w < b * w
  {
    if a < b {
      assert b * w == a * w + (b - a) * w;
    } else {
      assert a * w == b * w + (a - b) * w;
    }
  }

  lemma MulSucc(g: nat, n: nat)
    ensures (g + 1) * n == g * n + n
  {
  }

  lemma MulStep(g: nat, n: nat, w: nat)
    ensures ((g + 1) * n) * w == (g * n) * w + n * w
  {
    assert (g + 1) * n == g * n + n;
  }

  /** Quotient and remainder are the only such pair. */
  lemma DivModUnique(x: nat, w: nat, q: nat, r: nat)
    requires w >= 1 && x == q * w + r && r < w
    ensures x / w == q && x % w == r
  {
    DivMod(x, w);
    var q' := x / w;
    MulLess(q', q + 1, w);
    MulLess(q, q' + 1, w);
  }

  /** Removing one group of w lowers the quotient by one. */
  lemma DivStep(x: nat, w: nat)
    requires w >= 1 && x >= w
    ensures x / w == (x - w) / w + 1 && x % w == (x - w) % w
  {
    DivMod(x - w, w);
    DivModUnique(x, w, (x - w) / w + 1, (x - w) % w);
  }
}
