/** The event rate limit of a DMA channel, kept by the device as a waiting time in clock cycles. */
module RateLimiter {
  import opened Remainders
  import opened Words

  function ClockFrequency(pcieGen: uint32): uint32 {
    if pcieGen == 2 then 250000000 else 125000000
  }

  // Zero stands for no limit.
  function WaitTime(rate: uint32, pcieGen: uint32): uint32 {
    if rate != 0 then Quotient(ClockFrequency(pcieGen), rate) else 0
  }

  function Rate(waitTime: uint32, pcieGen: uint32): uint32 {
    if waitTime != 0 then Quotient(ClockFrequency(pcieGen), waitTime) else 0
  }

  function Quotient(c: uint32, d: uint32): uint32
    requires d > 0
  {
    QuotientBounds(c, d);
    c / d
  }

  lemma QuotientBounds(c: nat, d: nat)
    requires d > 0
    ensures 0 <= c / d <= c && c == (c / d) * d + c % d
  {
    var q := c / d;
    assert c == q * d + c % d;
    MulAtLeast(q, d);
    AtLeastFactor(q, d);
  }

  lemma AtLeastFactor(a: int, b: int)
    ensures a >= 0 && b >= 1 ==> a * b >= a
    ensures a >= 0 && b >= 0 ==> a * b >= 0
  {
  }

  // A factor below the quotient is one that fits.
  lemma QuotientIsLargest(c: nat, d: nat, k: nat)
    requires d > 0 && k * d <= c
    ensures k <= c / d
  {
    QuotientBounds(c, d);
    var e := k - c / d;
    assert e * d == k * d - (c / d) * d;
    MulAtLeast(e, d);
  }

  // The waiting time is the number of clock cycles, of 250 MHz on a generation 2 link and 125 MHz on any other, that
  // fit the time per event; a limit that is read is the number of such times that fit a second.
  lemma WaitTimeIs(rate: uint32, pcieGen: uint32)
    requires rate != 0
    ensures var c := if pcieGen == 2 then 250000000 else 125000000;
            && WaitTime(rate, pcieGen) * rate <= c < (WaitTime(rate, pcieGen) + 1) * rate
            && Rate(rate, pcieGen) * rate <= c < (Rate(rate, pcieGen) + 1) * rate
            && WaitTime(0, pcieGen) == Rate(0, pcieGen) == 0
  {
    var c := ClockFrequency(pcieGen);
    QuotientBounds(c, rate);
    assert (c / rate + 1) * rate == c / rate * rate + rate;
  }

  // The limit read back is never below the one set, unless that exceeds the clock and so sets none; it is the one set
  // exactly when the division leaves less than one cycle per event.
  lemma RateReadBack(rate: uint32, pcieGen: uint32)
    requires rate != 0
    ensures var c := if pcieGen == 2 then 250000000 else 125000000;
            var back := Rate(WaitTime(rate, pcieGen), pcieGen);
            if rate > c then back == 0
            else back >= rate && (back == rate <==> c % rate < c / rate)
  {
    var c, q := ClockFrequency(pcieGen), WaitTime(rate, pcieGen);
    QuotientBounds(c, rate);
    if rate > c {
      RemainderUnique(c, 0, c, rate);
    } else {
      QuotientIsLargest(c, rate, 1);
      QuotientIsLargest(c, q, rate);
      assert c == rate * q + c % rate;
      if c % rate < q {
        RemainderUnique(c, rate, c % rate, q);
      } else {
        assert (rate + 1) * q == rate * q + q;
        QuotientIsLargest(c, q, rate + 1);
      }
    }
  }

  // Dividing by a quotient finds it again.
  lemma QuotientOfQuotient(c: nat, k: nat, q: nat, back: nat)
    requires k > 0 && q == c / k && q > 0 && back == c / q
    ensures back > 0 && c / back == q
  {
    QuotientFits(c, k, q);
    QuotientFits(c, q, back);
    QuotientIsLargest(c, q, k);
    QuotientIsLargest(c, back, q);
    var again := c / back;
    QuotientFits(c, back, again);
    ProductGrows(again, k, back);
    QuotientIsLargest(c, k, again);
  }

  lemma QuotientFits(c: nat, d: nat, q: int)
    requires d > 0 && q == c / d
    ensures 0 <= q && q * d <= c && d * q <= c
  {
    QuotientBounds(c, d);
  }

  lemma ProductGrows(a: nat, k: nat, m: nat)
    requires k <= m
    ensures a * k <= a * m
  {
    AtLeastFactor(a, m - k);
    assert a * m == a * k + a * (m - k);
  }

  // Writing back a limit that was read keeps the waiting time.
  lemma ReadRateIsStable(rate: uint32, pcieGen: uint32)
    ensures WaitTime(Rate(WaitTime(rate, pcieGen), pcieGen), pcieGen) == WaitTime(rate, pcieGen)
  {
    var c, q := ClockFrequency(pcieGen), WaitTime(rate, pcieGen);
    if rate != 0 && q != 0 {
      QuotientOfQuotient(c, rate, q, Rate(q, pcieGen));
    }
  }
}
