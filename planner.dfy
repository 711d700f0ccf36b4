/**
 * The capacity planner of hashtable.go: a curated ascending list of table
 * lengths, the two searches over it, the trial-division test, the odd-number
 * scan that is the fallback when the list has no answer, and `getPrime`,
 * which combines them and panics when the scan comes back with 0.
 *
 * Every loop of the source is a method here, proved equal to a function
 * (or, for the trial-division test, to a quantified predicate) about which
 * the lemmas below state what the source promises.
 */
module Planner {

  /** The largest value of Go's uint64. */
  const MaxUint64: nat := 18446744073709551615

  /** The curated lengths, ascending (`primes`, hashtable.go). */
  const Primes: seq<nat> := [
    17, 23, 37, 53, 97, 193, 389, 769, 1543, 3079, 6151, 12289, 24593, 49157,
    98317, 196613, 393241, 786433, 1572869, 3145739, 6291469, 12582917,
    25165843, 50331653, 100663319, 201326611, 402653189, 805306457, 1610612741
  ]

  /** The largest curated length. */
  const LargestListed: nat := 1610612741

  /**
   * A length the probe sequence of the table can run on: the probe returns to
   * its home slot after `length` attempts exactly when 6 divides
   * `length * length - 1`, that is when `length` is odd and not a multiple
   * of 3; the table never has a length below 7.
   */
  predicate ValidLength(length: nat)
  {
    length >= 7 && length % 2 == 1 && length % 3 != 0
  }

  /** The outcome of `getPrime`: a length, or the panic "Prime could not be found!". */
  datatype Planned = Length(n: nat) | PrimeNotFound

  // ---------------------------------------------------------------------
  // The curated list
  // ---------------------------------------------------------------------

  /** Neighbouring entries are strictly increasing. */
  predicate StepsUp(s: seq<nat>)
  {
    forall i :: 0 <= i < |s| - 1 ==> s[i] < s[i + 1]
  }

  /** Entries are strictly increasing. */
  predicate Ascending(s: seq<nat>)
  {
    forall i, j :: 0 <= i < j < |s| ==> s[i] < s[j]
  }

  /** Every entry is a valid table length. */
  predicate AllValid(s: seq<nat>)
  {
    forall i :: 0 <= i < |s| ==> ValidLength(s[i])
  }

  /** Strictly increasing neighbours make the whole list strictly increasing. */
  lemma {:induction false} StepsUpAscending(s: seq<nat>)
    requires StepsUp(s)
    ensures Ascending(s)
  {
    forall i, j | 0 <= i < j < |s|
      ensures s[i] < s[j]
    {
      StepsUpBetween(s, i, j);
    }
  }

  lemma {:induction false} StepsUpBetween(s: seq<nat>, i: nat, j: nat)
    requires StepsUp(s) && i < j < |s|
    ensures s[i] < s[j]
    decreases j - i
  {
    if i + 1 < j {
      StepsUpBetween(s, i + 1, j);
    }
  }

  /** The curated list is strictly ascending and holds only valid lengths. */
  lemma PrimesFacts()
    ensures |Primes| == 29 && Primes[0] == 17 && Primes[28] == LargestListed
    ensures Ascending(Primes) && AllValid(Primes)
  {
    forall i | 0 <= i < |Primes|
      ensures ValidLength(Primes[i]) && (i < |Primes| - 1 ==> Primes[i] < Primes[i + 1])
    {
      assert i in {0, 1, 2, 3, 4, 5, 6, 7, 8, 9, 10, 11, 12, 13, 14, 15, 16, 17, 18, 19,
                   20, 21, 22, 23, 24, 25, 26, 27, 28};
    }
    StepsUpAscending(Primes);
  }

  /** The first entry of `s` from index `i` on that is at least `candidate`, or 0. */
  function FirstAtLeast(s: seq<nat>, candidate: nat, i: nat): nat
    requires i <= |s|
    decreases |s| - i
  {
    if i == |s| then 0
    else if s[i] >= candidate then s[i]
    else FirstAtLeast(s, candidate, i + 1)
  }

  /** The last entry of `s` below index `i` that is at most `candidate`, or 0. */
  function LastAtMost(s: seq<nat>, candidate: nat, i: nat): nat
    requires i <= |s|
    decreases i
  {
    if i == 0 then 0
    else if s[i - 1] <= candidate then s[i - 1]
    else LastAtMost(s, candidate, i - 1)
  }

  /** In an ascending list of valid lengths, the forward scan finds the least entry
      at least `candidate` among those from index `i` on, and 0 only when there is none. */
  lemma {:induction false} FirstAtLeastSpec(s: seq<nat>, candidate: nat, i: nat)
    requires i <= |s| && Ascending(s) && AllValid(s)
    ensures var r := FirstAtLeast(s, candidate, i);
      (r == 0 <==> forall j :: i <= j < |s| ==> s[j] < candidate) &&
      (r != 0 ==> ValidLength(r) && candidate <= r && (exists j :: i <= j < |s| && s[j] == r) &&
                  forall k :: i <= k < |s| && candidate <= s[k] ==> r <= s[k])
    decreases |s| - i
  {
    if i < |s| {
      if s[i] < candidate {
        FirstAtLeastSpec(s, candidate, i + 1);
      } else {
        assert s[i] == FirstAtLeast(s, candidate, i);
      }
    }
  }

  /** In an ascending list of valid lengths, the backward scan finds the greatest entry
      at most `candidate` among those below index `i`, and 0 only when there is none. */
  lemma {:induction false} LastAtMostSpec(s: seq<nat>, candidate: nat, i: nat)
    requires i <= |s| && Ascending(s) && AllValid(s)
    ensures var r := LastAtMost(s, candidate, i);
      (r == 0 <==> forall j :: 0 <= j < i ==> candidate < s[j]) &&
      (r != 0 ==> ValidLength(r) && r <= candidate && (exists j :: 0 <= j < i && s[j] == r) &&
                  forall k :: 0 <= k < i && s[k] <= candidate ==> s[k] <= r)
    decreases i
  {
    if i > 0 {
      if candidate < s[i - 1] {
        LastAtMostSpec(s, candidate, i - 1);
      } else {
        assert s[i - 1] == LastAtMost(s, candidate, i);
      }
    }
  }

  /**
   * What `pickLargestLength` computes, despite its name: the smallest curated
   * length that is at least `candidate`, or 0 when `candidate` is above them all.
   */
  function SmallestListedAtLeast(candidate: nat): nat
  {
    FirstAtLeast(Primes, candidate, 0)
  }

  /**
   * What `pickSmallestLength` computes, despite its name: the largest curated
   * length that is at most `candidate`, or 0 when `candidate` is below them all.
   */
  function LargestListedAtMost(candidate: nat): nat
  {
    LastAtMost(Primes, candidate, |Primes|)
  }

  /** The forward scan over a whole ascending list: 0 exactly when `candidate` is above its last entry. */
  lemma FirstAtLeastWhole(s: seq<nat>, candidate: nat)
    requires |s| > 0 && Ascending(s) && AllValid(s)
    ensures var r := FirstAtLeast(s, candidate, 0);
      (r == 0 <==> s[|s| - 1] < candidate) &&
      (r != 0 ==> ValidLength(r) && candidate <= r <= s[|s| - 1] &&
                  (exists j :: 0 <= j < |s| && s[j] == r) &&
                  forall k :: 0 <= k < |s| && candidate <= s[k] ==> r <= s[k])
  {
    FirstAtLeastSpec(s, candidate, 0);
    forall j | 0 <= j < |s|
      ensures s[j] <= s[|s| - 1]
    {
    }
  }

  /** The backward scan over a whole ascending list: 0 exactly when `candidate` is below its first entry. */
  lemma LastAtMostWhole(s: seq<nat>, candidate: nat)
    requires |s| > 0 && Ascending(s) && AllValid(s)
    ensures var r := LastAtMost(s, candidate, |s|);
      (r == 0 <==> candidate < s[0]) &&
      (r != 0 ==> ValidLength(r) && r <= candidate && (exists j :: 0 <= j < |s| && s[j] == r) &&
                  forall k :: 0 <= k < |s| && s[k] <= candidate ==> s[k] <= r)
  {
    LastAtMostSpec(s, candidate, |s|);
    if candidate < s[0] {
      forall j | 0 <= j < |s|
        ensures candidate < s[j]
      {
      }
    }
  }

  /** `SmallestListedAtLeast` is the least curated length not below `candidate`. */
  lemma SmallestListedAtLeastSpec(candidate: nat)
    ensures var r := SmallestListedAtLeast(candidate);
      (r == 0 <==> LargestListed < candidate) &&
      (r != 0 ==> ValidLength(r) && candidate <= r <= LargestListed &&
                  (exists j :: 0 <= j < |Primes| && Primes[j] == r) &&
                  forall k :: 0 <= k < |Primes| && candidate <= Primes[k] ==> r <= Primes[k])
  {
    PrimesFacts();
    FirstAtLeastWhole(Primes, candidate);
  }

  /** `LargestListedAtMost` is the greatest curated length not above `candidate`. */
  lemma LargestListedAtMostSpec(candidate: nat)
    ensures var r := LargestListedAtMost(candidate);
      (r == 0 <==> candidate < 17) &&
      (r != 0 ==> ValidLength(r) && r <= candidate && (exists j :: 0 <= j < |Primes| && Primes[j] == r) &&
                  forall k :: 0 <= k < |Primes| && Primes[k] <= candidate ==> Primes[k] <= r)
  {
    PrimesFacts();
    LastAtMostWhole(Primes, candidate);
  }

  /** In an ascending sequence, the order of two entries is the order of their positions. */
  lemma IndexOrder(s: seq<nat>, a: nat, b: nat)
    requires Ascending(s) && a < |s| && b < |s|
    ensures s[a] < s[b] ==> a < b
    ensures s[a] <= s[b] ==> a <= b
  {
  }

  /** The smallest curated length at least `candidate` is the entry just above the
      last entry below `candidate`. */
  lemma SmallestListedIs(candidate: nat, k: nat)
    requires k < |Primes| && candidate <= Primes[k] && (k == 0 || Primes[k - 1] < candidate)
    ensures SmallestListedAtLeast(candidate) == Primes[k]
  {
    PrimesFacts();
    SmallestListedAtLeastSpec(candidate);
    var r := SmallestListedAtLeast(candidate);
    var j :| 0 <= j < |Primes| && Primes[j] == r;
    IndexOrder(Primes, j, k);
    if k > 0 {
      IndexOrder(Primes, k - 1, j);
    }
  }

  /** The largest curated length at most `candidate` is the entry just below the
      first entry above `candidate`. */
  lemma LargestListedIs(candidate: nat, k: nat)
    requires k < |Primes| && Primes[k] <= candidate && (k == |Primes| - 1 || candidate < Primes[k + 1])
    ensures LargestListedAtMost(candidate) == Primes[k]
  {
    PrimesFacts();
    LargestListedAtMostSpec(candidate);
    var r := LargestListedAtMost(candidate);
    var j :| 0 <= j < |Primes| && Primes[j] == r;
    IndexOrder(Primes, k, j);
    if k + 1 < |Primes| {
      IndexOrder(Primes, j, k + 1);
    }
  }

  /** The loop of `pickLargestLength`: the first listed value at least `candidate`. */
  method PickLargestLength(candidate: nat) returns (r: nat)
    ensures r == SmallestListedAtLeast(candidate)
  {
    for i := 0 to |Primes|
      invariant FirstAtLeast(Primes, candidate, i) == SmallestListedAtLeast(candidate)
    {
      if Primes[i] >= candidate {
        return Primes[i];
      }
    }
    return 0;
  }

  /** The loop of `pickSmallestLength`: the last listed value at most `candidate`. */
  method PickSmallestLength(candidate: nat) returns (r: nat)
    ensures r == LargestListedAtMost(candidate)
  {
    var i := |Primes|;
    while i > 0
      invariant 0 <= i <= |Primes|
      invariant LastAtMost(Primes, candidate, i) == LargestListedAtMost(candidate)
    {
      var prime := Primes[i - 1];
      if prime <= candidate {
        return prime;
      }
      i := i - 1;
    }
    return 0;
  }

  // ---------------------------------------------------------------------
  // Trial division and the fallback scan
  // ---------------------------------------------------------------------

  /**
   * What `isPrime` accepts: no ODD divisor `d` with `3 <= d` and `d * d <= n`.
   * Even divisors are never tried, so 0, 1 and the even numbers without such an
   * odd divisor pass (2, 4, 6, 8, 10, 14, ...), while 18 fails at 3.
   */
  ghost predicate PassesTrialDivision(n: nat)
  {
    forall d: nat :: TrialDivisor(d, n) ==> !Divides(d, n)
  }

  /** `isPrime(n)` tries `d`: an odd number from 3 whose square is at most `n`. */
  predicate TrialDivisor(d: nat, n: nat)
  {
    3 <= d && d % 2 == 1 && d * d <= n
  }

  /** `d` divides `n`. */
  predicate Divides(d: nat, n: nat)
    requires d > 0
  {
    n % d == 0
  }

  /** Squares grow with their roots. */
  lemma SquareMonotone(a: nat, b: nat)
    requires a <= b
    ensures a * a <= b * b
  {
    assert a * a <= a * b <= b * b;
  }

  /** Below 9 there is no trial divisor at all, so `isPrime` accepts 0, 1, 4, 8 and the rest. */
  lemma {:induction false} SmallValuesPass(n: nat)
    requires n < 9
    ensures PassesTrialDivision(n)
  {
    forall d: nat | 3 <= d
      ensures !TrialDivisor(d, n)
    {
      SquareMonotone(3, d);
    }
  }

  /** The loop of `isPrime`, odd trial divisors from 3 while their square is at most `n`. */
  method IsPrime(n: nat) returns (r: bool)
    ensures r == PassesTrialDivision(n)
  {
    var i: nat := 3;
    while i * i <= n
      invariant i >= 3 && i % 2 == 1
      invariant forall d: nat :: 3 <= d < i && d % 2 == 1 ==> !Divides(d, n)
      decreases n - i
    {
      if n % i == 0 {
        assert Divides(i, n);
        return false;
      }
      SquareMonotone(1, i);
      i := i + 2;
    }
    forall d: nat | TrialDivisor(d, n)
      ensures !Divides(d, n)
    {
      if d >= i {
        SquareMonotone(i, d);
      }
    }
    return true;
  }

  /** The first value `i, i + 2, i + 4, ...` below MaxUint64 that passes trial division, or 0. */
  ghost function FirstPassingFrom(i: nat): (r: nat)
    decreases MaxUint64 - i
  {
    if i >= MaxUint64 then 0
    else if PassesTrialDivision(i) then i
    else FirstPassingFrom(i + 2)
  }

  /** What `computePrimeNumber` returns: the scan starts at `candidate + 1` for an even
      candidate and at 0 otherwise. */
  ghost function ComputePrime(candidate: nat): nat
  {
    FirstPassingFrom(if candidate % 2 == 0 then candidate + 1 else 0)
  }

  /** The loop of `computePrimeNumber`. */
  method ComputePrimeNumber(candidate: nat) returns (r: nat)
    requires candidate <= MaxUint64
    ensures r == ComputePrime(candidate)
  {
    var start: nat := 0;
    if candidate % 2 == 0 {
      start := candidate + 1;
    }
    var i := start;
    while i < MaxUint64
      invariant FirstPassingFrom(i) == ComputePrime(candidate)
      decreases MaxUint64 - i
    {
      var passes := IsPrime(i);
      if passes {
        return i;
      }
      i := i + 2;
    }
    return 0;
  }

  /**
   * The scan from an odd `i` either finds the first odd value from `i` on that
   * passes trial division, or reports 0 when no odd value below MaxUint64 does.
   */
  lemma {:induction false} FirstPassingFromSpec(i: nat)
    requires i % 2 == 1
    ensures FirstPassingFrom(i) == 0 ==>
      forall m :: i <= m < MaxUint64 && m % 2 == 1 ==> !PassesTrialDivision(m)
    ensures FirstPassingFrom(i) != 0 ==>
      var r := FirstPassingFrom(i);
      i <= r < MaxUint64 && r % 2 == 1 && PassesTrialDivision(r) &&
      forall m :: i <= m < r && m % 2 == 1 ==> !PassesTrialDivision(m)
    decreases MaxUint64 - i
  {
    if i < MaxUint64 && !PassesTrialDivision(i) {
      var r := FirstPassingFrom(i + 2);
      assert FirstPassingFrom(i) == r;
      FirstPassingFromSpec(i + 2);
      var bound := if r == 0 then MaxUint64 else r;
      forall m | i <= m < bound && m % 2 == 1
        ensures !PassesTrialDivision(m)
      {
        if m != i {
          NextOdd(i, m);
        }
      }
    }
  }

  /** Two odd numbers differ by at least 2. */
  lemma NextOdd(i: nat, m: nat)
    requires i % 2 == 1 && m % 2 == 1 && i < m
    ensures i + 2 <= m
  {
  }

  // ---------------------------------------------------------------------
  // getPrime
  // ---------------------------------------------------------------------

  /** What `getPrime(candidate, nextSizeUp)` does: the curated answer when there is one,
      else the fallback scan, whose 0 becomes the panic. */
  ghost function PlannedLength(candidate: nat, nextSizeUp: bool): Planned
  {
    var listed := if nextSizeUp then SmallestListedAtLeast(candidate) else LargestListedAtMost(candidate);
    if listed != 0 then Length(listed)
    else
      var computed := ComputePrime(candidate);
      if computed == 0 then PrimeNotFound else Length(computed)
  }

  /** `getPrime`, with its panic returned as `PrimeNotFound`. */
  method GetPrime(candidate: nat, nextSizeUp: bool) returns (r: Planned)
    requires candidate <= MaxUint64
    ensures r == PlannedLength(candidate, nextSizeUp)
  {
    var foundPrime: nat;
    if nextSizeUp {
      foundPrime := PickLargestLength(candidate);
    } else {
      foundPrime := PickSmallestLength(candidate);
    }
    if foundPrime != 0 {
      return Length(foundPrime);
    }
    foundPrime := ComputePrimeNumber(candidate);
    if foundPrime == 0 {
      return PrimeNotFound;
    }
    return Length(foundPrime);
  }

  /** When the curated list has an answer, `getPrime` returns it. */
  lemma PlannedFromList(candidate: nat, nextSizeUp: bool)
    ensures nextSizeUp && candidate <= LargestListed ==>
      PlannedLength(candidate, nextSizeUp) == Length(SmallestListedAtLeast(candidate))
    ensures !nextSizeUp && 17 <= candidate ==>
      PlannedLength(candidate, nextSizeUp) == Length(LargestListedAtMost(candidate))
  {
    SmallestListedAtLeastSpec(candidate);
    LargestListedAtMostSpec(candidate);
  }

  /** The list misses `candidate` in the direction `getPrime` searches. */
  predicate MissesList(candidate: nat, nextSizeUp: bool)
  {
    if nextSizeUp then LargestListed < candidate else candidate < 17
  }

  /** A miss leaves `getPrime` to the fallback scan. */
  lemma MissFallsBack(candidate: nat, nextSizeUp: bool)
    requires MissesList(candidate, nextSizeUp)
    ensures PlannedLength(candidate, nextSizeUp) ==
      if ComputePrime(candidate) == 0 then PrimeNotFound else Length(ComputePrime(candidate))
  {
    if nextSizeUp {
      SmallestListedAtLeastSpec(candidate);
    } else {
      LargestListedAtMostSpec(candidate);
    }
  }

  /**
   * An odd candidate that misses the list always makes `getPrime` panic: the
   * scan then starts at 0, and `isPrime(0)` holds, so the scan returns 0.
   */
  lemma OddMissPanics(candidate: nat, nextSizeUp: bool)
    requires MissesList(candidate, nextSizeUp) && candidate % 2 == 1
    ensures PlannedLength(candidate, nextSizeUp) == PrimeNotFound
  {
    MissFallsBack(candidate, nextSizeUp);
    SmallValuesPass(0);
    assert ComputePrime(candidate) == FirstPassingFrom(0) == 0;
  }

  /**
   * An even candidate that misses the list gets the least odd number above it
   * that passes trial division, or the panic when no such number is below
   * MaxUint64.
   */
  lemma EvenMissScans(candidate: nat, nextSizeUp: bool)
    requires MissesList(candidate, nextSizeUp) && candidate % 2 == 0
    ensures match PlannedLength(candidate, nextSizeUp)
      case Length(n) =>
        candidate < n < MaxUint64 && n % 2 == 1 && PassesTrialDivision(n) &&
        forall m :: candidate < m < n && m % 2 == 1 ==> !PassesTrialDivision(m)
      case PrimeNotFound =>
        forall m :: candidate < m < MaxUint64 && m % 2 == 1 ==> !PassesTrialDivision(m)
  {
    MissFallsBack(candidate, nextSizeUp);
    assert ComputePrime(candidate) == FirstPassingFrom(candidate + 1);
    FirstPassingFromSpec(candidate + 1);
  }

  /** `getPrime` never returns 0: the table is never given length 0. */
  lemma PlannedNeverZero(candidate: nat, nextSizeUp: bool)
    ensures PlannedLength(candidate, nextSizeUp).Length? ==> PlannedLength(candidate, nextSizeUp).n != 0
  {
    if MissesList(candidate, nextSizeUp) {
      if candidate % 2 == 1 {
        OddMissPanics(candidate, nextSizeUp);
      } else {
        EvenMissScans(candidate, nextSizeUp);
      }
    } else {
      PlannedFromList(candidate, nextSizeUp);
      SmallestListedAtLeastSpec(candidate);
      LargestListedAtMostSpec(candidate);
    }
  }

  /** A value of at least 9 that passes trial division is not a multiple of 3. */
  lemma PassingNotMultipleOfThree(n: nat)
    requires n >= 9 && PassesTrialDivision(n)
    ensures n % 3 != 0
  {
    assert TrialDivisor(3, n);
  }

  /**
   * Growing a table of valid length `length` (`computeNextSizeUp`) asks for
   * `getPrime(2 * length, true)`; what it gets, when it does not panic, is again
   * a valid length, at least twice the old one, and within uint64.
   */
  lemma GrowthLengthValid(length: nat)
    requires ValidLength(length) && 2 * length < MaxUint64
    ensures PlannedLength(2 * length, true).Length? ==>
      var n := PlannedLength(2 * length, true).n;
      ValidLength(n) && 2 * length <= n < MaxUint64
  {
    var c := 2 * length;
    SmallestListedAtLeastSpec(c);
    if LargestListed < c {
      assert c % 2 == 0;
      FirstPassingFromSpec(c + 1);
      var r := FirstPassingFrom(c + 1);
      assert ComputePrime(c) == r;
      if r != 0 {
        PassingNotMultipleOfThree(r);
      }
    }
  }

  /**
   * Shrinking a table of valid length `length` (`computeNextSizeDown`) asks for
   * `getPrime(length / 2, false)`; what it gets, when it does not panic, is again
   * a valid length within uint64.
   */
  lemma ShrinkLengthValid(length: nat)
    requires ValidLength(length) && length <= MaxUint64
    ensures PlannedLength(length / 2, false).Length? ==>
      var n := PlannedLength(length / 2, false).n;
      ValidLength(n) && n < MaxUint64
  {
    var c := length / 2;
    LargestListedAtMostSpec(c);
    if c >= 17 {
      PlannedFromList(c, false);
    } else if c % 2 == 1 {
      OddMissPanics(c, false);
    } else {
      EvenMissScans(c, false);
      assert c == 4 ==> length == 8 || length == 9;
      var planned := PlannedLength(c, false);
      if planned.Length? && planned.n >= 9 {
        PassingNotMultipleOfThree(planned.n);
      }
    }
  }

  /** `New(5)` and `New(10)` round up to 17, `New(40)` to 53. */
  lemma NewLengthExamples()
    ensures SmallestListedAtLeast(5) == 17 && SmallestListedAtLeast(10) == 17 && SmallestListedAtLeast(40) == 53
  {
    SmallestListedIs(5, 0);
    SmallestListedIs(10, 0);
    SmallestListedIs(40, 3);
  }

  /**
   * Concrete answers of `getPrime` from the curated list: `getPrime(23, true)`
   * is 23 and `getPrime(46, true)` is 53; growing a length-53 table asks for
   * `getPrime(106, true)`, which is 193; shrinking it asks for
   * `getPrime(26, false)`, which is 23.
   */
  lemma ListedExamples()
    ensures PlannedLength(23, true) == Length(23)
    ensures PlannedLength(46, true) == Length(53)
    ensures PlannedLength(106, true) == Length(193)
    ensures PlannedLength(26, false) == Length(23)
  {
    SmallestListedIs(23, 1);
    SmallestListedIs(46, 3);
    SmallestListedIs(106, 5);
    LargestListedIs(26, 1);
  }

  /** Shrinking a length-23 table asks for `getPrime(11, false)`, which panics. */
  lemma ShrinkFrom23Panics()
    ensures PlannedLength(23 / 2, false) == PrimeNotFound
  {
    OddMissPanics(11, false);
  }

  /** 11 passes trial division and 9 does not. */
  lemma TrialDivisionOfNineAndEleven()
    ensures !PassesTrialDivision(9) && PassesTrialDivision(11)
  {
    assert TrialDivisor(3, 9) && Divides(3, 9);
    forall d: nat | TrialDivisor(d, 11)
      ensures !Divides(d, 11)
    {
      if d >= 5 {
        SquareMonotone(5, d);
      }
    }
  }

  /** Only odd divisors are tried: the even 10 passes, while the even 18 fails at 3. */
  lemma TrialDivisionOfEvenValues()
    ensures PassesTrialDivision(10) && !PassesTrialDivision(18)
  {
    assert TrialDivisor(3, 18) && Divides(3, 18);
    forall d: nat | TrialDivisor(d, 10)
      ensures !Divides(d, 10)
    {
      if d >= 5 {
        SquareMonotone(5, d);
      }
    }
  }

  /** Shrinking a length-17 table falls back to the scan, which passes over 9 and gets 11. */
  lemma ShrinkFrom17FallsBack()
    ensures PlannedLength(17 / 2, false) == Length(11)
  {
    LargestListedAtMostSpec(8);
    TrialDivisionOfNineAndEleven();
    assert FirstPassingFrom(9) == FirstPassingFrom(11) == 11;
  }
}
