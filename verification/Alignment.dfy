/** Rounding up to multiples, as the memory managers do it. */
module Alignment {

  /** What is missing from z to a multiple of align. */
  function Padding(z: nat, align: nat): nat
    requires 0 < align
  {
    (align - z % align) % align
  }

  /** z rounded up to a multiple of align. */
  function RoundUp(z: nat, align: nat): (r: nat)
    requires 0 < align
    ensures z <= r
  {
    z + Padding(z, align)
  }

  lemma Bounds(m: nat, k: int)
    ensures 1 <= k ==> m <= m * k
    ensures k <= -1 ==> m * k + m <= 0
  {
    if 1 <= k { assert m * k == m + m * (k - 1); } else if k <= -1 { assert m * k == m * (k + 1) - m; }
  }

  /** x is a multiple of m exactly if it is m times something. */
  lemma IsMultiple(x: nat, m: nat, q: nat)
    requires 0 < m && x == m * q
    ensures x % m == 0
  {
    var q', r := x / m, x % m;
    assert m * (q - q') == r;
    Bounds(m, q - q');
  }

  lemma SumIsMultiple(x: nat, y: nat, m: nat)
    requires 0 < m && x % m == 0 && y % m == 0
    ensures (x + y) % m == 0
  {
    assert x == m * (x / m) && y == m * (y / m);
    assert m * (x / m) + m * (y / m) == m * (x / m + y / m);
    IsMultiple(x + y, m, x / m + y / m);
  }

  lemma PaddingAligns(z: nat, align: nat)
    requires 0 < align
    ensures RoundUp(z, align) % align == 0 && RoundUp(z, align) < z + align
  {
    var q, r := z / align, z % align;
    assert z == align * q + r;
    if r == 0 {
      IsMultiple(align, align, 1);
      assert RoundUp(z, align) == z;
    } else {
      SmallMod(align - r, align);
      assert RoundUp(z, align) == align * q + align == align * (q + 1);
      IsMultiple(RoundUp(z, align), align, q + 1);
    }
  }

  lemma SmallMod(r: nat, m: nat)
    requires r < m
    ensures r % m == r
  {
  }

  /** Rounding up stays below any multiple that is not below. */
  lemma PaddingFits(z: nat, align: nat, limit: nat)
    requires 0 < align && limit % align == 0 && z <= limit
    ensures RoundUp(z, align) <= limit
  {
    PaddingAligns(z, align);
    var q, p := limit / align, RoundUp(z, align) / align;
    assert limit == align * q && RoundUp(z, align) == align * p;
    assert align * (p - q) == RoundUp(z, align) - limit;
    Bounds(align, p - q);
  }

  lemma RestIsMultiple(x: nat, y: nat, m: nat)
    requires 0 < m && y <= x && x % m == 0 && y % m == 0
    ensures (x - y) % m == 0
  {
    assert x == m * (x / m) && y == m * (y / m);
    assert x - y == m * (x / m - y / m);
    Bounds(m, x / m - y / m);
    IsMultiple(x - y, m, x / m - y / m);
  }
}
