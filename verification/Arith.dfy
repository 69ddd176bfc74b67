/** Facts about remainders used for wrapped coordinates. */
module Arith {

  lemma ModUnique(v: int, q: int, r: int, n: int)
    requires 0 <= r < n && v == q * n + r
    ensures v % n == r && v / n == q
  {
    var d := v / n - q;
    assert d * n == r - v % n;
    assert d > 0 ==> d * n >= n;
    assert d < 0 ==> d * n <= -n;
  }

  lemma SameResidue(v: int, w: int, n: int)
    requires 0 < n && v % n == w % n
    ensures (v - w) % n == 0
  {
    assert v - w == (v / n - w / n) * n + 0;
    ModUnique(v - w, v / n - w / n, 0, n);
  }
}
