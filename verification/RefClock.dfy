/** The reference clock generator: the divider search, the register layout, and how close the result comes. */
module RefClock {
  import opened Remainders

  const LOW: real := 4850.0
  const HIGH: real := 5670.0
  const TWO_28: nat := 0x1000_0000

  // The divider settings the chip knows.
  predicate LegalN1(n: int) {
    n == 1 || (2 <= n <= 128 && n % 2 == 0)
  }

  predicate LegalHsDiv(h: int) {
    h == 4 || h == 5 || h == 6 || h == 7 || h == 9 || h == 11
  }

  predicate Legal(n: int, h: int) {
    LegalN1(n) && LegalHsDiv(h)
  }

  function Dco(frequency: real, h: int, n: int): real {
    frequency * h as real * n as real
  }

  // The search order: low N1 first, for each the high HS_DIV first.
  predicate Before(n1: int, h1: int, n2: int, h2: int) {
    n1 < n2 || (n1 == n2 && h1 > h2)
  }

  function Float2Hex(x: real): int {
    (x * TWO_28 as real).Floor
  }

  function Hex2Float(x: int): real {
    x as real / TWO_28 as real
  }

  datatype Options = Options(hsDiv: int, n1: int, rfreqInt: int, rfreqFloat: real, fdco: real, fxtal: real)

  // Unset: the search found a pair but stored none, and returns uninitialised settings.
  datatype Result = Found(options: Options) | Unset | InvalidParameter

  // A legal pair whose DCO frequency lies in the range, the upper end excluded.
  predicate Candidate(frequency: real, n: int, h: int) {
    Legal(n, h) && LOW <= Dco(frequency, h, n) < HIGH
  }

  // The pairs already visited when the search is about to look at (n, h).
  predicate Visited(n: int, h: int, m: int, g: int) {
    Legal(m, g) && Before(m, g, n, h)
  }

  predicate InRange(frequency: real, n: int, h: int) {
    LOW <= Dco(frequency, h, n) <= HIGH
  }

  ghost predicate FoundAmong(frequency: real, n: int, h: int) {
    exists m, g :: Visited(n, h, m, g) && InRange(frequency, m, g)
  }

  function OptionsFor(frequency: real, fxtal: real, n: int, h: int): Options
    requires fxtal > 0.0
  {
    var dco := Dco(frequency, h, n);
    Options(h, n, Float2Hex(dco / fxtal), dco / fxtal, dco, fxtal)
  }

  // Pair (a, b) is at least as good as (m, g): a lower DCO frequency, or the same and found first.
  predicate NoWorse(frequency: real, a: int, b: int, m: int, g: int) {
    || Dco(frequency, b, a) < Dco(frequency, g, m)
    || (Dco(frequency, b, a) == Dco(frequency, g, m) && !Before(m, g, a, b))
  }

  // Among the visited pairs: nothing stored while none is a candidate, else the first of the best.
  ghost predicate Best(frequency: real, fxtal: real, n: int, h: int, last: real, options: Options)
    requires fxtal > 0.0
  {
    if last == HIGH then forall m, g :: Visited(n, h, m, g) ==> !Candidate(frequency, m, g)
    else
      && Visited(n, h, options.n1, options.hsDiv)
      && Candidate(frequency, options.n1, options.hsDiv)
      && last == Dco(frequency, options.hsDiv, options.n1)
      && options == OptionsFor(frequency, fxtal, options.n1, options.hsDiv)
      && forall m, g :: Visited(n, h, m, g) && Candidate(frequency, m, g) ==>
           NoWorse(frequency, options.n1, options.hsDiv, m, g)
  }

  lemma VisitedStep(n: int, h: int, m: int, g: int)
    ensures Visited(n, h - 1, m, g) <==> Visited(n, h, m, g) || (Legal(n, h) && m == n && g == h)
  {
  }

  lemma VisitFound(frequency: real, n: int, h: int)
    ensures FoundAmong(frequency, n, h - 1) <==>
              FoundAmong(frequency, n, h) || (Legal(n, h) && InRange(frequency, n, h))
  {
    hide Visited, InRange, Legal;
    VisitedStep(n, h, n, h);
    forall m, g
      ensures Visited(n, h - 1, m, g) <==> Visited(n, h, m, g) || (Legal(n, h) && m == n && g == h)
    {
      VisitedStep(n, h, m, g);
    }
    if Legal(n, h) && InRange(frequency, n, h) {
      assert Visited(n, h - 1, n, h);
    }
    if m, g :| Visited(n, h, m, g) && InRange(frequency, m, g) {
      assert Visited(n, h - 1, m, g);
    }
  }

  // One more pair, or one that does not exist, is visited.
  lemma VisitOne(frequency: real, fxtal: real, n: int, h: int, last: real, options: Options)
    requires fxtal > 0.0 && Best(frequency, fxtal, n, h, last, options)
    ensures if Legal(n, h) && InRange(frequency, n, h) && Dco(frequency, h, n) < last
            then Best(frequency, fxtal, n, h - 1, Dco(frequency, h, n), OptionsFor(frequency, fxtal, n, h))
            else Best(frequency, fxtal, n, h - 1, last, options)
  {
    hide Dco, Float2Hex, Visited, Legal;
    VisitedStep(n, h, n, h);
    var dco := Dco(frequency, h, n);
    var store := Legal(n, h) && InRange(frequency, n, h) && dco < last;
    LastIsInRange(frequency, fxtal, n, h, last, options);
    forall m, g
      ensures Visited(n, h - 1, m, g) <==> Visited(n, h, m, g) || (Legal(n, h) && m == n && g == h)
      ensures Visited(n, h, m, g) ==> !Before(n, h, m, g)
    {
      VisitedStep(n, h, m, g);
      VisitedBefore(n, h, m, g);
    }
    if store {
      assert Candidate(frequency, n, h);
      forall m, g | Visited(n, h - 1, m, g) && Candidate(frequency, m, g)
        ensures NoWorse(frequency, n, h, m, g)
      {
        assert !Visited(n, h, m, g) || last <= Dco(frequency, g, m);
      }
    } else if last == HIGH {
      forall m, g | Visited(n, h - 1, m, g)
        ensures !Candidate(frequency, m, g)
      {
        assert Visited(n, h, m, g) || (m == n && g == h);
      }
    } else {
      forall m, g | Visited(n, h - 1, m, g) && Candidate(frequency, m, g)
        ensures NoWorse(frequency, options.n1, options.hsDiv, m, g)
      {
        assert Visited(n, h, m, g) || (m == n && g == h);
      }
    }
  }

  lemma LastIsInRange(frequency: real, fxtal: real, n: int, h: int, last: real, options: Options)
    requires fxtal > 0.0 && Best(frequency, fxtal, n, h, last, options)
    ensures last <= HIGH
    ensures last != HIGH ==> last < HIGH
  {
  }

  lemma VisitedBefore(n: int, h: int, m: int, g: int)
    ensures Visited(n, h, m, g) ==> Legal(m, g) && Before(m, g, n, h) && !Before(n, h, m, g)
  {
  }

  // All of N1 = n has been visited.
  lemma VisitNext(frequency: real, fxtal: real, n: int, h: int, last: real, options: Options)
    requires fxtal > 0.0 && Best(frequency, fxtal, n, h, last, options)
    requires h <= 3 || !LegalN1(n)
    ensures FoundAmong(frequency, n + 1, 12) <==> FoundAmong(frequency, n, h)
    ensures Best(frequency, fxtal, n + 1, 12, last, options)
  {
    hide Dco, Float2Hex, InRange, Candidate, NoWorse;
    forall m, g
      ensures Visited(n + 1, 12, m, g) <==> Visited(n, h, m, g)
    {
      if Legal(m, g) && m == n && h > 3 {
        assert false;
      }
    }
    if m, g :| Visited(n, h, m, g) && InRange(frequency, m, g) {
      assert Visited(n + 1, 12, m, g);
    }
  }

  lemma AllVisited(m: int, g: int)
    ensures Visited(129, 12, m, g) <==> Legal(m, g)
    ensures !Visited(1, 12, m, g)
  {
  }

  // -- Which frequencies can be reached ------------------------------------------------------------------------------

  // The products HS_DIV * N1 are 4, 5, 6, and from there on close enough for every frequency to have one.
  predicate Reachable(frequency: real) {
    || 4850.0 / 1408.0 <= frequency <= 945.0
    || 970.0 <= frequency <= 1134.0
    || 1212.5 <= frequency <= 1417.5
  }

  // Six, five and four times these are exactly the upper end of the range.
  predicate OnUpperEnd(frequency: real) {
    frequency == 945.0 || frequency == 1134.0 || frequency == 1417.5
  }

  // The DCO frequency depends on the product of the two dividers only.
  function Product(n: int, h: int): int {
    h * n
  }

  function Times(frequency: real, p: int): real {
    frequency * p as real
  }

  lemma DcoIsProduct(frequency: real, n: int, h: int)
    ensures Dco(frequency, h, n) == Times(frequency, Product(n, h))
  {
  }

  lemma TimesGrows(frequency: real, p: int, q: int)
    requires p <= q
    ensures 0.0 <= frequency ==> Times(frequency, p) <= Times(frequency, q)
    ensures 0.0 < frequency && p < q ==> Times(frequency, p) < Times(frequency, q)
  {
    var d := (q - p) as real;
    assert frequency * d == Times(frequency, q) - Times(frequency, p);
    if 0.0 <= frequency {
      assert frequency * d >= 0.0;
    }
    if 0.0 < frequency && p < q {
      assert frequency * d > 0.0;
    }
  }

  lemma TimesPositive(frequency: real, p: nat)
    ensures 0.0 < Times(frequency, p) ==> 0.0 < frequency && p > 0
  {
    if frequency <= 0.0 {
      assert Times(frequency, p) == -((-frequency) * p as real);
    }
  }

  lemma TimesConstant(frequency: real)
    ensures Times(frequency, 4) == 4.0 * frequency && Times(frequency, 5) == 5.0 * frequency
    ensures Times(frequency, 6) == 6.0 * frequency && Times(frequency, 1408) == 1408.0 * frequency
  {
  }

  lemma LegalProducts(n: int, h: int)
    requires Legal(n, h)
    ensures Product(n, h) == 4 || Product(n, h) == 5 || 6 <= Product(n, h) <= 1408
  {
    if n > 1 {
      assert h * n >= 4 * n;
      assert h * n <= 11 * n;
    }
  }

  // A pair in the range belongs to a reachable frequency.
  lemma InRangeIsReachable(frequency: real, n: int, h: int)
    requires Legal(n, h) && InRange(frequency, n, h)
    ensures Reachable(frequency)
    ensures Dco(frequency, h, n) < HIGH ==> !OnUpperEnd(frequency)
  {
    hide Dco, Product, Times, LegalN1, LegalHsDiv;
    DcoIsProduct(frequency, n, h);
    LegalProducts(n, h);
    var p := Product(n, h);
    TimesConstant(frequency);
    TimesPositive(frequency, p);
    if p >= 6 {
      TimesGrows(frequency, 6, p);
      TimesGrows(frequency, p, 1408);
    }
  }

  // Pairs of growing product, each at most 567/485 = HIGH/LOW times the one before: an explicit start, then HS_DIV 11.
  function LowRung(k: nat): (int, int) {
    if k == 0 then (1, 6) else if k == 1 then (1, 7) else if k == 2 then (2, 4) else if k == 3 then (1, 9)
    else if k == 4 then (2, 5) else if k == 5 then (1, 11) else if k == 6 then (2, 6) else if k == 7 then (2, 7)
    else if k == 8 then (4, 4) else if k == 9 then (2, 9) else if k == 10 then (4, 5) else if k == 11 then (2, 11)
    else if k == 12 then (4, 6) else if k == 13 then (4, 7) else if k == 14 then (8, 4) else if k == 15 then (4, 9)
    else if k == 16 then (6, 7) else if k == 17 then (12, 4) else if k == 18 then (8, 7) else if k == 19 then (16, 4)
    else if k == 20 then (8, 9) else if k == 21 then (12, 7) else if k == 22 then (24, 4) else if k == 23 then (16, 7)
    else (32, 4)
  }

  const TOP: nat := 25 + 58

  function Rung(k: nat): (int, int) {
    if k < 25 then LowRung(k) else (12 + 2 * (k - 25), 11)
  }

  lemma RungsClimb(k: nat)
    requires k <= TOP
    ensures Legal(Rung(k).0, Rung(k).1) && 6 <= Product(Rung(k).0, Rung(k).1)
    ensures k < TOP ==> 485 * Product(Rung(k + 1).0, Rung(k + 1).1) <= 567 * Product(Rung(k).0, Rung(k).1)
    ensures Rung(0) == (1, 6) && Rung(TOP) == (128, 11)
  {
  }

  // From a rung that does not exceed the range, some rung reaches it.
  lemma {:induction false} ClimbIntoRange(frequency: real, k: nat) returns (n: int, h: int)
    requires k <= TOP && LOW / 1408.0 <= frequency
    requires Times(frequency, Product(Rung(k).0, Rung(k).1)) < HIGH
    ensures Candidate(frequency, n, h)
    decreases TOP - k
  {
    hide Rung, Dco, Product, Times, LegalN1, LegalHsDiv;
    RungsClimb(k);
    n, h := Rung(k).0, Rung(k).1;
    DcoIsProduct(frequency, n, h);
    var p := Product(n, h);
    if Times(frequency, p) < LOW {
      TopIsReached(frequency);
      var q := Product(Rung(k + 1).0, Rung(k + 1).1);
      NextStaysInRange(frequency, p, q);
      n, h := ClimbIntoRange(frequency, k + 1);
    }
  }

  lemma TopIsReached(frequency: real)
    requires LOW / 1408.0 <= frequency
    ensures LOW <= Times(frequency, Product(128, 11))
  {
  }

  lemma NextStaysInRange(frequency: real, p: int, q: int)
    requires 0.0 < frequency && Times(frequency, p) < LOW && 485 * q <= 567 * p
    ensures Times(frequency, q) < HIGH
  {
    TimesGrows(frequency, 485 * q, 567 * p);
    assert Times(frequency, 485 * q) == 485.0 * Times(frequency, q);
    assert Times(frequency, 567 * p) == 567.0 * Times(frequency, p);
  }

  // A reachable frequency has a pair in the range, and one below its upper end unless it is one of three values.
  lemma ReachableHasPair(frequency: real) returns (n: int, h: int)
    requires Reachable(frequency)
    ensures Legal(n, h) && InRange(frequency, n, h)
    ensures !OnUpperEnd(frequency) ==> Candidate(frequency, n, h)
  {
    if frequency < 945.0 {
      RungsClimb(0);
      TimesConstant(frequency);
      n, h := ClimbIntoRange(frequency, 0);
    } else {
      n, h := 1, if frequency == 945.0 then 6 else if frequency <= 1134.0 then 5 else 4;
    }
  }

  lemma RangeIsReached(frequency: real)
    ensures (exists n, h :: Legal(n, h) && InRange(frequency, n, h)) <==> Reachable(frequency)
    ensures (exists n, h :: Candidate(frequency, n, h)) <==> Reachable(frequency) && !OnUpperEnd(frequency)
  {
    if n, h :| Legal(n, h) && InRange(frequency, n, h) {
      InRangeIsReachable(frequency, n, h);
    }
    if n, h :| Candidate(frequency, n, h) {
      InRangeIsReachable(frequency, n, h);
    }
    if Reachable(frequency) {
      var n, h := ReachableHasPair(frequency);
    }
  }

  // The settings with the lowest DCO frequency in the range, and among equals those with the lowest N1.
  method CalcNewOpts(frequency: real, fxtal: real) returns (result: Result)
    requires fxtal > 0.0
    ensures result == InvalidParameter <==> forall n, h :: Legal(n, h) ==> !InRange(frequency, n, h)
    ensures result.Found? <==> exists n, h :: Candidate(frequency, n, h)
    ensures result == InvalidParameter <==> !Reachable(frequency)
    ensures result == Unset <==> OnUpperEnd(frequency)
    ensures result.Found? ==>
              var o := result.options;
              && Candidate(frequency, o.n1, o.hsDiv)
              && o == OptionsFor(frequency, fxtal, o.n1, o.hsDiv)
              && forall n, h :: Candidate(frequency, n, h) ==> NoWorse(frequency, o.n1, o.hsDiv, n, h)
  {
    hide Dco, Float2Hex, Visited, InRange, Candidate, NoWorse;
    var found, last := false, HIGH;
    var options := Options(0, 0, 0, 0.0, 0.0, fxtal);
    forall m, g ensures !Visited(1, 12, m, g) && (Visited(129, 12, m, g) <==> Legal(m, g)) {
      AllVisited(m, g);
    }
    var n := 1;
    while n <= 128
      invariant 1 <= n <= 129
      invariant found <==> FoundAmong(frequency, n, 12)
      invariant Best(frequency, fxtal, n, 12, last, options)
    {
      VisitFound(frequency, n, 12);
      VisitOne(frequency, fxtal, n, 12, last, options);
      if n == 1 || n % 2 == 0 {
        var h := 11;
        while h > 3
          invariant 3 <= h <= 11
          invariant found <==> FoundAmong(frequency, n, h)
          invariant Best(frequency, fxtal, n, h, last, options)
        {
          VisitFound(frequency, n, h);
          VisitOne(frequency, fxtal, n, h, last, options);
          if h != 8 && h != 10 {
            var dco := Dco(frequency, h, n);
            RangeIs(frequency, n, h);
            if dco >= LOW && dco <= HIGH {
              found := true;
              if dco < last {
                options := OptionsFor(frequency, fxtal, n, h);
                last := dco;
              }
            }
          }
          h := h - 1;
        }
        VisitNext(frequency, fxtal, n, h, last, options);
      } else {
        VisitNext(frequency, fxtal, n, 11, last, options);
      }
      n := n + 1;
    }
    CandidatesAreInRange(frequency);
    RangeIsReached(frequency);
    if !found {
      result := InvalidParameter;
    } else if last == HIGH {
      result := Unset;
    } else {
      result := Found(options);
    }
  }

  // What was found, in numbers: of the divider pairs that give a DCO frequency of 4850 to 5670 MHz the one that gives
  // the lowest, with the lowest N1; and the multiplier for it in units of 2^-28, rounded down.
  lemma FoundIs(frequency: real, fxtal: real, o: Options)
    requires fxtal > 0.0 && Candidate(frequency, o.n1, o.hsDiv) && o == OptionsFor(frequency, fxtal, o.n1, o.hsDiv)
    requires forall n, h :: Candidate(frequency, n, h) ==> NoWorse(frequency, o.n1, o.hsDiv, n, h)
    ensures o.hsDiv in {4, 5, 6, 7, 9, 11} && (o.n1 == 1 || (o.n1 % 2 == 0 && 2 <= o.n1 <= 128))
    ensures o.fdco == frequency * o.hsDiv as real * o.n1 as real && 4850.0 <= o.fdco < 5670.0
    ensures o.rfreqFloat * fxtal == o.fdco && o.fxtal == fxtal
    ensures o.rfreqInt as real <= o.rfreqFloat * 268435456.0 < o.rfreqInt as real + 1.0
    ensures forall n, h :: Legal(n, h) && 4850.0 <= Dco(frequency, h, n) < 5670.0 ==>
              o.fdco < Dco(frequency, h, n) || (o.fdco == Dco(frequency, h, n) && o.n1 <= n)
  {
    hide Dco;
    DcoIs(frequency, o.hsDiv, o.n1);
    Requotient(o.fdco, fxtal);
    forall n, h | Legal(n, h) && 4850.0 <= Dco(frequency, h, n) < 5670.0
      ensures o.fdco < Dco(frequency, h, n) || (o.fdco == Dco(frequency, h, n) && o.n1 <= n)
    {
      assert Candidate(frequency, n, h);
    }
  }

  lemma LegalIs(n: int, h: int)
    ensures Legal(n, h) <==> h in {4, 5, 6, 7, 9, 11} && (n == 1 || (n % 2 == 0 && 2 <= n <= 128))
  {
  }

  lemma DcoIs(frequency: real, h: int, n: int)
    ensures Dco(frequency, h, n) == frequency * h as real * n as real
  {
  }

  lemma Requotient(x: real, d: real)
    requires d > 0.0
    ensures x / d * d == x
  {
  }

  lemma RangeIs(frequency: real, n: int, h: int)
    ensures InRange(frequency, n, h) <==> LOW <= Dco(frequency, h, n) <= HIGH
  {
  }

  lemma CandidatesAreInRange(frequency: real)
    ensures forall n, h :: Candidate(frequency, n, h) ==> Legal(n, h) && InRange(frequency, n, h)
  {
  }

  // -- The order of the search -------------------------------------------------------------------------------------

  // The pair the comment in the source asks for: the lowest N1, and for it the highest HS_DIV, in the range.
  ghost predicate FirstInOrder(frequency: real, n: int, h: int) {
    && Legal(n, h) && InRange(frequency, n, h)
    && forall m, g :: Legal(m, g) && InRange(frequency, m, g) ==> !Before(m, g, n, h)
  }

  lemma FirstIs(frequency: real, n: int, h: int, m: int, g: int)
    requires FirstInOrder(frequency, n, h)
    ensures 4850.0 <= Dco(frequency, h, n) <= 5670.0
    ensures Legal(m, g) && 4850.0 <= Dco(frequency, g, m) <= 5670.0 ==> n < m || (n == m && g <= h)
  {
    hide Dco, LegalN1, LegalHsDiv;
  }

  // Every reachable frequency has one, found by going back from any pair in the range.
  lemma {:induction false} FirstExists(frequency: real, n: int, h: int) returns (m: int, g: int)
    requires Legal(n, h) && InRange(frequency, n, h)
    ensures FirstInOrder(frequency, m, g)
    decreases 12 * n + (11 - h)
  {
    hide InRange;
    if m', g' :| Legal(m', g') && InRange(frequency, m', g') && Before(m', g', n, h) {
      m, g := FirstExists(frequency, m', g');
    } else {
      m, g := n, h;
    }
  }

  // h is a factor of p whose cofactor is a legal N1.
  predicate Divides(h: int, p: nat)
    requires h > 0
  {
    p % h == 0 && LegalN1(p / h)
  }

  predicate IsProduct(p: nat) {
    Divides(4, p) || Divides(5, p) || Divides(6, p) || Divides(7, p) || Divides(9, p) || Divides(11, p)
  }

  lemma FactorDivides(n: int, h: int)
    requires Legal(n, h)
    ensures Product(n, h) > 0 && Divides(h, Product(n, h))
  {
    assert n * h == h * n;
    RemainderUnique(h * n, n, 0, h);
  }

  lemma ProductIs(n: int, h: int)
    requires Legal(n, h)
    ensures Product(n, h) > 0 && IsProduct(Product(n, h))
  {
    hide Divides, Product, LegalN1;
    LegalProducts(n, h);
    FactorDivides(n, h);
  }

  lemma CofactorIs(h: int, p: nat)
    requires h > 0 && Divides(h, p)
    ensures LegalN1(p / h) && Product(p / h, h) == p
  {
    assert p == p / h * h + p % h;
  }

  lemma ProductHasPair(p: nat) returns (n: int, h: int)
    requires IsProduct(p)
    ensures Legal(n, h) && Product(n, h) == p
  {
    hide Divides, Product, LegalN1;
    h := if Divides(4, p) then 4 else if Divides(5, p) then 5 else if Divides(6, p) then 6
         else if Divides(7, p) then 7 else if Divides(9, p) then 9 else 11;
    n := p / h;
    CofactorIs(h, p);
  }

  // The largest product of a legal pair below p, or 0.
  function NextLower(p: nat): (q: nat)
    requires p > 0
    ensures q < p && (q > 0 ==> IsProduct(q))
    ensures forall r :: q < r < p ==> !IsProduct(r)
  {
    hide IsProduct;
    if p == 1 || IsProduct(p - 1) then p - 1 else NextLower(p - 1)
  }

  // If the next lower product misses the range, no candidate lies below the first pair.
  lemma NoLowerCandidate(frequency: real, n: int, h: int, a: int, b: int)
    requires Legal(n, h) && InRange(frequency, n, h) && Candidate(frequency, a, b)
    requires Product(n, h) > 0 && Times(frequency, NextLower(Product(n, h))) < LOW
    ensures Dco(frequency, h, n) <= Dco(frequency, b, a)
  {
    hide Dco, Product, Times, LegalN1, LegalHsDiv, IsProduct, NextLower;
    ProductIs(a, b);
    DcoIsProduct(frequency, n, h);
    DcoIsProduct(frequency, a, b);
    var p, r := Product(n, h), Product(a, b);
    TimesPositive(frequency, r);
    if r <= NextLower(p) {
      TimesGrows(frequency, r, NextLower(p));
    } else {
      TimesGrows(frequency, p, r);
    }
  }

  // If it does not, its pair is a candidate below the first pair.
  lemma LowerCandidate(frequency: real, n: int, h: int) returns (m: int, g: int)
    requires Legal(n, h) && InRange(frequency, n, h)
    requires Product(n, h) > 0 && LOW <= Times(frequency, NextLower(Product(n, h)))
    ensures Candidate(frequency, m, g) && Dco(frequency, g, m) < Dco(frequency, h, n)
  {
    hide Dco, Product, Times, LegalN1, LegalHsDiv, IsProduct, NextLower;
    var q := NextLower(Product(n, h));
    TimesPositive(frequency, q);
    m, g := ProductHasPair(q);
    DcoIsProduct(frequency, n, h);
    DcoIsProduct(frequency, m, g);
    TimesGrows(frequency, q, Product(n, h));
  }

  // The search returns the pair its comment asks for exactly when the next lower product misses the range.
  lemma FirstIsReturnedExactlyWhen(frequency: real, n: int, h: int, a: int, b: int)
    requires FirstInOrder(frequency, n, h)
    requires Candidate(frequency, a, b) && forall m, g :: Candidate(frequency, m, g) ==> NoWorse(frequency, a, b, m, g)
    ensures Product(n, h) > 0
    ensures a == n && b == h <==> Times(frequency, NextLower(Product(n, h))) < LOW
  {
    hide Dco, Product, Times, LegalN1, LegalHsDiv, IsProduct, NextLower;
    ProductIs(n, h);
    if Times(frequency, NextLower(Product(n, h))) < LOW {
      NoLowerCandidate(frequency, n, h, a, b);
      FirstIsBest(frequency, n, h, a, b);
    } else {
      var m, g := LowerCandidate(frequency, n, h);
    }
  }

  lemma FirstIsBest(frequency: real, n: int, h: int, a: int, b: int)
    requires FirstInOrder(frequency, n, h) && Dco(frequency, h, n) <= Dco(frequency, b, a)
    requires Candidate(frequency, a, b) && forall m, g :: Candidate(frequency, m, g) ==> NoWorse(frequency, a, b, m, g)
    ensures a == n && b == h
  {
    hide Dco, LegalN1, LegalHsDiv;
    assert Candidate(frequency, n, h);
    assert NoWorse(frequency, a, b, n, h);
    assert InRange(frequency, a, b);
  }

  // At 500 MHz the comment asks for N1 = 1 and HS_DIV = 11; the search returns the lower product 2 * 5.
  lemma FirstIsNotAlwaysReturned()
    ensures FirstInOrder(500.0, 1, 11) && Candidate(500.0, 2, 5)
    ensures Dco(500.0, 5, 2) < Dco(500.0, 11, 1)
    ensures NextLower(Product(1, 11)) == 10 && Times(500.0, 10) >= LOW
  {
    assert Dco(500.0, 11, 1) == 5500.0;
    assert Dco(500.0, 5, 2) == 5000.0;
    assert IsProduct(10);
  }

  // -- Realised frequency ------------------------------------------------------------------------------------------

  // The DCO multiplies the crystal's frequency.
  function Multiplied(fxtal: real, multiplier: real): real {
    fxtal * multiplier
  }

  // The DCO frequency divided down by HS_DIV and N1.
  function Output(dco: real, h: int, n: int): real
    requires h != 0 && n != 0
  {
    dco / h as real / n as real
  }

  // getFout: what the settings stand for, before rounding.
  function GetFout(o: Options): real
    requires o.hsDiv != 0 && o.n1 != 0
  {
    Output(Multiplied(o.fxtal, o.rfreqFloat), o.hsDiv, o.n1)
  }

  // What the oscillator makes of the rounded multiplier.
  function Realised(o: Options): real
    requires o.hsDiv != 0 && o.n1 != 0
  {
    Output(Multiplied(o.fxtal, Hex2Float(o.rfreqInt)), o.hsDiv, o.n1)
  }

  lemma ProductOrder(a: real, b: real, d: real)
    requires d > 0.0
    ensures a * d <= b * d ==> a <= b
    ensures a * d < b * d ==> a < b
  {
    if a > b {
      assert (a - b) * d > 0.0;
    }
    if a >= b {
      assert (a - b) * d >= 0.0;
    }
  }

  lemma DividedTwice(frequency: real, h: int, n: int)
    requires h > 0 && n > 0
    ensures Output(Dco(frequency, h, n), h, n) == frequency
  {
    var a, b, dco := h as real, n as real, Dco(frequency, h, n);
    assert dco == (frequency * b) * a;
    Cancel(frequency * b, a, dco);
    Cancel(frequency, b, frequency * b);
  }

  lemma Cancel(a: real, d: real, product: real)
    requires d > 0.0 && product == a * d
    ensures product / d == a
  {
  }

  // Rounding the multiplier down loses less than 2^-28 of it.
  lemma RoundingError(x: real)
    ensures x - 1.0 / 268435456.0 < Hex2Float(Float2Hex(x)) <= x
    ensures Hex2Float(Float2Hex(x)) * 268435456.0 == Float2Hex(x) as real
  {
    var k := Float2Hex(x);
    var t := TWO_28 as real;
    assert k as real <= x * t < k as real + 1.0;
    assert Hex2Float(k) * t == k as real;
    assert (x - 1.0 / t) * t == x * t - 1.0;
    ProductOrder(x - 1.0 / t, Hex2Float(k), t);
    ProductOrder(Hex2Float(k), x, t);
  }

  // The settings found stand for the requested frequency; the oscillator stays below it by less than
  // fxtal / (2^28 * HS_DIV * N1).
  lemma FrequencyError(frequency: real, fxtal: real, n: int, h: int)
    requires fxtal > 0.0 && n > 0 && h > 0
    ensures var o := OptionsFor(frequency, fxtal, n, h);
            && GetFout(o) == frequency
            && frequency - Output(fxtal / 268435456.0, h, n) < Realised(o) <= frequency
  {
    hide Float2Hex, Hex2Float, Dco, Output, Multiplied;
    var o := OptionsFor(frequency, fxtal, n, h);
    var dco := Dco(frequency, h, n);
    DividedTwice(frequency, h, n);
    RoundingError(o.rfreqFloat);
    var z := ScaledBounds(fxtal, dco, o.rfreqFloat, Hex2Float(o.rfreqInt));
    OutputBounds(dco, z, fxtal / TWO_28 as real, h, n);
  }

  // What the settings stand for and what they give, times both dividers, is the crystal's frequency times the
  // multiplier, exact and rounded.
  lemma OutputIs(o: Options)
    requires o.hsDiv > 0 && o.n1 > 0
    ensures GetFout(o) * o.n1 as real * o.hsDiv as real == o.fxtal * o.rfreqFloat
    ensures Realised(o) * o.n1 as real * o.hsDiv as real * 268435456.0 == o.fxtal * o.rfreqInt as real
  {
    DividedBack(o.fxtal * o.rfreqFloat, o.hsDiv, o.n1);
    DividedBack(o.fxtal * Hex2Float(o.rfreqInt), o.hsDiv, o.n1);
    Scaled(o.fxtal, Hex2Float(o.rfreqInt), o.rfreqInt as real);
  }

  lemma DividedBack(x: real, h: int, n: int)
    requires h > 0 && n > 0
    ensures Output(x, h, n) * n as real * h as real == x
  {
  }

  lemma Scaled(a: real, y: real, k: real)
    requires y * 268435456.0 == k
    ensures a * y * 268435456.0 == a * k
  {
  }

  lemma OutputBounds(dco: real, z: real, e: real, h: int, n: int)
    requires h > 0 && n > 0 && dco - e < z <= dco
    ensures Output(dco, h, n) - Output(e, h, n) < Output(z, h, n) <= Output(dco, h, n)
  {
    ErrorDivided(dco, z, e, h as real, n as real);
  }

  lemma ScaledBounds(fxtal: real, dco: real, x: real, y: real) returns (z: real)
    requires fxtal > 0.0 && x == dco / fxtal && x - 1.0 / TWO_28 as real < y <= x
    ensures z == Multiplied(fxtal, y) && dco == Multiplied(fxtal, x)
    ensures dco - fxtal / TWO_28 as real < z <= dco
  {
    z := fxtal * y;
    var d := 1.0 / TWO_28 as real;
    assert fxtal * d == fxtal / TWO_28 as real;
    assert fxtal * x == dco;
    assert fxtal * (x - y) >= 0.0 && fxtal * (y - x + d) > 0.0;
    assert fxtal * (y - x + d) == z - dco + fxtal * d;
    assert fxtal * (x - y) == dco - z;
  }

  lemma ErrorDivided(dco: real, z: real, e: real, h: real, n: real)
    requires h > 0.0 && n > 0.0 && dco - e < z <= dco
    ensures dco / h / n - e / h / n < z / h / n <= dco / h / n
  {
    ErrorDividedOnce(dco, z, e, h);
    ErrorDividedOnce(dco / h, z / h, e / h, n);
  }

  lemma ErrorDividedOnce(dco: real, z: real, e: real, d: real)
    requires d > 0.0 && dco - e < z <= dco
    ensures dco / d - e / d < z / d <= dco / d
  {
    var a, b, c := dco / d, e / d, z / d;
    assert a * d == dco && b * d == e && c * d == z;
    assert (a - b) * d == dco - e;
    ProductOrder(c, a, d);
    ProductOrder(a - b, c, d);
  }
}
