/** Division with remainder by a variable, which the solver does not do on its own. */
module Remainders {
  lemma MulAtLeast(a: int, n: nat)
    ensures a >= 1 ==> a * n >= n
    ensures a <= -1 ==> a * n + n <= 0
  {
  }

  lemma RemainderUnique(x: nat, q: int, r: nat, n: nat)
    requires r < n && x == q * n + r
    ensures x % n == r && x / n == q
  {
    var d := x / n;
    assert x == d * n + x % n;
    var e := q - d;
    assert e * n == x % n - r by {
      assert e * n == q * n - d * n;
    }
    MulAtLeast(e, n);
  }

  lemma RemainderOfRemainder(x: nat, m: nat, k: nat)
    requires 0 < m && 0 < k && 0 < m * k
    ensures x % (m * k) % m == x % m
  {
    var y := x % (m * k);
    var q, p := x / (m * k), y / m;
    assert x == q * (m * k) + y && y == p * m + y % m;
    assert q * (m * k) + p * m == (q * k + p) * m;
    RemainderUnique(x, q * k + p, y % m, m);
  }

  lemma SameRemainder(x: nat, y: nat, n: nat, m: nat)
    requires 0 < m && x % m == y % m
    ensures (x + n) % m == (y + n) % m
  {
    AddedRemainder(x, n, m);
    AddedRemainder(y, n, m);
  }

  lemma AddedRemainder(x: nat, n: nat, m: nat)
    requires 0 < m
    ensures (x + n) % m == (x % m + n) % m
  {
    var q, z := x / m, x % m + n;
    var d := z / m;
    assert x == q * m + x % m && z == d * m + z % m;
    assert q * m + d * m == (q + d) * m;
    RemainderUnique(x + n, q + d, z % m, m);
  }
}
