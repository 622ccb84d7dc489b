/** Bits of natural numbers, and the bitwise operators, without bit vectors. */
module Bits {
  import opened Remainders

  type Byte = x: int | 0 <= x < 0x100

  function Pow2(n: nat): (p: nat)
    ensures p > 0
  {
    if n == 0 then 1 else 2 * Pow2(n - 1)
  }

  predicate Bit(mask: nat, i: nat) {
    if i == 0 then mask % 2 == 1 else Bit(mask / 2, i - 1)
  }

  lemma {:induction false} BitIs(mask: nat, i: nat)
    ensures Bit(mask, i) <==> mask / Pow2(i) % 2 == 1
  {
    if i > 0 {
      BitIs(mask / 2, i - 1);
      HalfQuotient(mask, Pow2(i - 1));
    }
  }

  lemma HalfQuotient(x: nat, p: nat)
    requires p > 0
    ensures x / (2 * p) == x / 2 / p
  {
    var q, r := x / (2 * p), x % (2 * p);
    assert x == q * (2 * p) + r == 2 * (q * p + r / 2) + r % 2;
    RemainderUnique(x, q * p + r / 2, r % 2, 2);
    RemainderUnique(q * p + r / 2, q, r / 2, p);
  }

  // Bitwise and.
  function And(a: nat, b: nat): (r: nat)
    ensures r <= a && r <= b
    decreases a
  {
    if a == 0 || b == 0 then 0 else (a % 2) * (b % 2) + 2 * And(a / 2, b / 2)
  }

  // Bitwise or.
  function Or(a: nat, b: nat): nat
    decreases a
  {
    if a == 0 then b else if b == 0 then a
    else (if a % 2 == 1 || b % 2 == 1 then 1 else 0) + 2 * Or(a / 2, b / 2)
  }

  lemma {:induction false} Pow2Monotone(m: nat, n: nat)
    requires m <= n
    ensures Pow2(m) <= Pow2(n)
  {
    if m < n {
      Pow2Monotone(m, n - 1);
    }
  }

  lemma {:induction false} BitOfAnd(a: nat, b: nat, i: nat)
    ensures Bit(And(a, b), i) <==> Bit(a, i) && Bit(b, i)
  {
    if a == 0 || b == 0 {
      NoBits(i);
    } else {
      AndHalves(a, b);
      if i > 0 {
        BitOfAnd(a / 2, b / 2, i - 1);
      }
    }
  }

  lemma AndHalves(a: nat, b: nat)
    requires a > 0 && b > 0
    ensures And(a, b) % 2 == 1 <==> a % 2 == 1 && b % 2 == 1
    ensures And(a, b) / 2 == And(a / 2, b / 2)
  {
    var low, high := (a % 2) * (b % 2), And(a / 2, b / 2);
    assert And(a, b) == low + 2 * high;
    assert 0 <= low < 2;
  }

  lemma {:induction false} BitOfOr(a: nat, b: nat, i: nat)
    ensures Bit(Or(a, b), i) <==> Bit(a, i) || Bit(b, i)
  {
    if a == 0 || b == 0 {
      NoBits(i);
    } else if i > 0 {
      BitOfOr(a / 2, b / 2, i - 1);
    }
  }

  lemma {:induction false} NoBits(i: nat)
    ensures !Bit(0, i)
  {
    if i > 0 {
      NoBits(i - 1);
    }
  }

  lemma {:induction false} AndSelf(a: nat)
    ensures And(a, a) == a
  {
    if a > 0 {
      AndSelf(a / 2);
    }
  }

  // Fields that do not overlap may be combined by either operator.
  lemma {:induction false} OrIsSum(a: nat, k: nat, b: nat)
    requires b < Pow2(k)
    ensures Or(a * Pow2(k), b) == a * Pow2(k) + b
  {
    if k > 0 && a > 0 {
      var half := a * Pow2(k - 1);
      assert a * Pow2(k) == 2 * half;
      OrIsSum(a, k - 1, b / 2);
    }
  }

  // Two fields side by side: below bit k the bits of the lower one, above it those of the other.
  lemma {:induction false} BitOfFields(a: nat, k: nat, b: nat, i: nat)
    requires b < Pow2(k)
    ensures Bit(a * Pow2(k) + b, i) <==> if i < k then Bit(b, i) else Bit(a, i - k)
  {
    if k > 0 {
      FieldsHalved(a, Pow2(k - 1), b);
      if i > 0 {
        BitOfFields(a, k - 1, b / 2, i - 1);
      }
    }
  }

  lemma FieldsHalved(a: nat, p: nat, b: nat)
    ensures a * (2 * p) + b == 2 * (a * p + b / 2) + b % 2
    ensures (a * (2 * p) + b) / 2 == a * p + b / 2 && (a * (2 * p) + b) % 2 == b % 2
  {
    var x := a * (2 * p) + b;
    assert x == 2 * (a * p + b / 2) + b % 2;
    RemainderUnique(x, a * p + b / 2, b % 2, 2);
  }

  lemma Powers()
    ensures Pow2(0) == 1 && Pow2(5) == 0x20 && Pow2(6) == 0x40 && Pow2(8) == 0x100
    ensures Pow2(16) == 0x1_0000 && Pow2(24) == 0x100_0000 && Pow2(32) == 0x1_0000_0000
  {
    assert Pow2(4) == 16;
    assert Pow2(8) == 256;
    assert Pow2(12) == 0x1000;
    assert Pow2(16) == 0x1_0000;
    assert Pow2(20) == 0x10_0000;
    assert Pow2(24) == 0x100_0000;
    assert Pow2(28) == 0x1000_0000;
  }
}
