/** Which physical slot of a ring of n slots holds the entry with logical number k. */
module Slots {
  import opened Remainders

  // The remainder of k by n (SlotIsRemainder), by repeated subtraction: proofs about rings then need no multiplication.
  function Slot(k: nat, n: nat): (r: nat)
    requires n > 0
    ensures r < n
  {
    if k < n then k else Slot(k - n, n)
  }

  lemma {:induction false} SlotIsRemainder(k: nat, n: nat)
    requires n > 0
    ensures Slot(k, n) == k % n
  {
    if k < n {
      RemainderUnique(k, 0, k, n);
    } else {
      SlotIsRemainder(k - n, n);
      var q := (k - n) / n;
      assert (q + 1) * n == q * n + n;
      RemainderUnique(k, q + 1, (k - n) % n, n);
    }
  }

  // The wrap-around increment of the source is the step to the next logical number.
  lemma {:induction false} SlotStep(k: nat, n: nat)
    requires n > 0
    ensures Slot(k + 1, n) == if Slot(k, n) < n - 1 then Slot(k, n) + 1 else 0
  {
    if k >= n {
      SlotStep(k - n, n);
    }
  }

  lemma SlotPeriod(k: nat, n: nat)
    requires n > 0
    ensures Slot(k + n, n) == Slot(k, n)
  {
  }

  lemma SlotSmall(k: nat, n: nat)
    requires k < n
    ensures Slot(k, n) == k
  {
  }

  // Fewer than n steps apart means a different slot.
  lemma {:induction false} SlotDistinct(j: nat, k: nat, n: nat)
    requires n > 0 && j < k < j + n
    ensures Slot(j, n) != Slot(k, n)
  {
    if j >= n {
      SlotDistinct(j - n, k - n, n);
    }
  }

  // Any n consecutive numbers fill the ring.
  lemma {:induction false} SlotCover(base: nat, i: nat, n: nat) returns (k: nat)
    requires i < n
    ensures base <= k < base + n && Slot(k, n) == i
  {
    if base >= n {
      var j := SlotCover(base - n, i, n);
      k := j + n;
    } else if base <= i {
      k := i;
    } else {
      k := i + n;
    }
  }
}
