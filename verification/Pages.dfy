/** Page arithmetic for any page size the system reports. */
module Pages {
  import opened Words
  import opened Remainders

  // The divisors of 2^32 below it are the powers of two, for which masking with page - 1 is the remainder by page.
  type PageSize = p: int | 0 < p < TWO_32 && TWO_32 % p == 0 witness 4096

  ghost predicate Aligned(x: nat, page: PageSize) {
    x % page == 0
  }

  lemma AddAligned(x: nat, y: nat, page: PageSize)
    requires Aligned(y, page)
    ensures (x + y) % page == x % page
  {
    var q, p := x / page, y / page;
    assert x == q * page + x % page && y == p * page;
    assert (q + p) * page == q * page + p * page;
    RemainderUnique(x + y, q + p, x % page, page);
  }

  lemma SubAligned(x: nat, y: nat, page: PageSize)
    requires Aligned(y, page) && y <= x
    ensures (x - y) % page == x % page
  {
    AddAligned(x - y, y, page);
  }

  // From any position, page - remainder bytes lead to the next page boundary.
  lemma NextBoundary(x: nat, page: PageSize)
    ensures Aligned(x + (page - x % page), page)
  {
    var q := x / page;
    assert x == q * page + x % page;
    assert (q + 1) * page == q * page + page;
    RemainderUnique(x + (page - x % page), q + 1, 0, page);
  }

  // A page boundary beyond x is at least that far away.
  lemma BoundaryDistance(x: nat, rest: nat, page: PageSize)
    requires rest > 0 && Aligned(x + rest, page)
    ensures rest >= page - x % page
  {
    var q, p := x / page, (x + rest) / page;
    assert x == q * page + x % page && x + rest == p * page;
    var d := p - q - 1;
    assert d * page == rest - (page - x % page) by {
      assert d * page == p * page - q * page - page;
    }
    MulAtLeast(d, page);
  }

  lemma PageMultiples(page: PageSize)
    ensures Aligned(TWO_32 - page, page) && Aligned(TWO_64, page)
  {
    var q := TWO_32 / page;
    assert TWO_32 == q * page;
    assert (q - 1) * page == q * page - page;
    RemainderUnique(TWO_32 - page, q - 1, 0, page);
    assert TWO_64 == TWO_32 * TWO_32;
    assert (TWO_32 * q) * page == TWO_32 * (q * page);
    RemainderUnique(TWO_64, TWO_32 * q, 0, page);
  }

  lemma WrapKeepsRemainder(x: nat, page: PageSize)
    ensures (x % TWO_64) % page == x % page
  {
    PageMultiples(page);
    var k := x / TWO_64;
    assert x == k * TWO_64 + x % TWO_64;
    var q := TWO_64 / page;
    assert TWO_64 == q * page;
    assert k * TWO_64 == (k * q) * page;
    RemainderUnique(k * TWO_64, k * q, 0, page);
    AddAligned(x % TWO_64, k * TWO_64, page);
  }
}
