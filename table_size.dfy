/** The table-size policy of the matcher: about 1.3 slots per window, then a
    single trial-division pass that bumps the candidate whenever it is
    divisible. The pass runs over divisors fixed from the starting candidate
    and never restarts, so its result need not be prime. */
module TableSize {
  import opened Primes

  /** `int(keyNum * 1.3)`: 1.3 taken exactly, truncated toward zero as
      Python's `int` does. */
  function MinLength(keyNum: int): (minL: int)
    ensures keyNum >= 0 ==> keyNum <= minL && 10 * minL <= 13 * keyNum < 10 * minL + 10
    ensures keyNum < 0 ==> minL <= 0
  {
    if keyNum >= 0 then keyNum * 13 / 10 else -((-keyNum) * 13 / 10)
  }

  /** The rest of the pass `for i in range(i, hi)` from candidate `q`: the
      candidate goes up by one whenever the current `i` divides it, so by at
      most one per divisor tried. */
  function SizeFold(q: int, i: int, hi: int): (r: int)
    requires i >= 2
    ensures q <= r <= q + (if hi > i then hi - i else 0)
    decreases hi - i
  {
    if i >= hi then q else SizeFold(if q % i == 0 then q + 1 else q, i + 1, hi)
  }

  /** The size chosen for a minimum length `minL`: `minL` itself up to 3;
      above, a value between `minL` and `minL + minL / 2 - 2`. */
  function SizeFor(minL: int): (r: int)
    ensures minL <= 3 ==> r == minL
    ensures minL > 3 ==> minL <= r <= minL + minL / 2 - 2
  {
    if minL <= 3 then minL else SizeFold(minL, 2, minL / 2)
  }

  /** `rolling_table_size` as a function of the number of windows: no room
      for a non-positive count, a single slot for one window, and at least
      one slot per window otherwise. */
  function TableSize(keyNum: int): (q: int)
    ensures keyNum <= 0 ==> q <= 0
    ensures keyNum == 1 ==> q == 1
    ensures keyNum >= 2 ==> q >= 2 && q >= keyNum
  {
    SizeFor(MinLength(keyNum))
  }

  /** `rolling_table_size`: the one pass over `i in range(2, minL // 2)`; the
      source's `continue` only moves on to the next `i`, and the enclosing
      `while True` returns after this first pass. */
  method RollingTableSize(keyNum: int) returns (q: int)
    ensures q == TableSize(keyNum)
    ensures MinLength(keyNum) <= 3 ==> q == MinLength(keyNum)
    ensures MinLength(keyNum) > 3 ==> MinLength(keyNum) <= q <= MinLength(keyNum) + MinLength(keyNum) / 2 - 2
  {
    var minL := MinLength(keyNum);
    if minL <= 3 {
      return minL;
    }
    q := minL;
    var hi := q / 2;
    for i := 2 to hi
      invariant SizeFold(q, i, hi) == SizeFold(minL, 2, hi)
    {
      if q % i == 0 {
        q := q + 1;
      }
    }
  }

  /** A minimum length of 4 would give 4, since the range of divisors is
      empty; `MinLengthNotFour` shows no window count reaches it, so the
      smallest candidate the pass ever sees is 5. */
  lemma SizeForFour()
    ensures SizeFor(4) == 4
  {
  }

  /** A minimum length of 8 gives 10 (8 -> 9 at i = 2, 9 -> 10 at i = 3),
      not the next prime 11. */
  lemma SizeForEight()
    ensures SizeFor(8) == 10
  {
    assert SizeFold(9, 3, 4) == 10;
  }

  /** Seven windows get a table of 10 slots, a composite size. */
  lemma TableSizeSeven()
    ensures MinLength(7) == 9 && TableSize(7) == 10
  {
    assert SizeFold(10, 3, 4) == 10;
  }

  /** Eleven windows get 17 slots (14 -> 15 -> 16 -> 17). */
  lemma TableSizeEleven()
    ensures MinLength(11) == 14 && TableSize(11) == 17
  {
    assert SizeFold(17, 5, 7) == 17;
  }

  /** Twelve windows get 17 slots (15 -> 16 at i = 3, 16 -> 17 at i = 4). */
  lemma TableSizeTwelve()
    ensures MinLength(12) == 15 && TableSize(12) == 17
  {
    assert SizeFold(17, 5, 7) == 17;
  }

  // ---------------------------------------------------------------------
  // The size the source evidently intends: the next prime
  // ---------------------------------------------------------------------

  /** A minimum length above 3 is at least 5: no whole number of windows
      times 1.3 lies in `[4, 5)`. */
  lemma MinLengthNotFour(keyNum: int)
    ensures MinLength(keyNum) != 4
  {
  }

  /** A divisor of `q` from `q // 2` up to `q - 1` is exactly half of `q`. */
  lemma HalfDivisor(q: int, d: int)
    requires q >= 5 && q / 2 <= d < q
    ensures q % d == 0 ==> q == 2 * d
  {
    if q % d == 0 {
      var c := q / d;
      assert q == d * c;
      assert d * (c - 2) == q - 2 * d;
      MulBounded(d, c - 2);
    }
  }

  /** Trial division by every `i` in `range(2, q // 2)` decides primality
      once `q >= 5`: a divisor `d` of `q` with `q // 2 <= d < q` is half of
      `q`, and then 2, which is tried, divides `q` too. */
  lemma TrialHalfSuffices(q: int)
    requires q >= 5 && forall d :: 2 <= d < q / 2 ==> q % d != 0
    ensures IsPrime(q)
  {
    forall d | 2 <= d < q
      ensures q % d != 0
    {
      if d >= q / 2 {
        HalfDivisor(q, d);
        if q > 5 {
          assert q % 2 != 0;
        }
      }
    }
  }

  /** The primality test `rolling_table_size` evidently intends: trial
      division by every `i` in `range(2, q // 2)`. */
  method TrialDivision(q: int) returns (prime: bool)
    requires q >= 5
    ensures prime == IsPrime(q)
  {
    for i := 2 to q / 2
      invariant forall d :: 2 <= d < i ==> q % d != 0
    {
      if q % i == 0 {
        return false;
      }
    }
    TrialHalfSuffices(q);
    return true;
  }

  /** The size `rolling_table_size` is documented to return: `minL` up to 3,
      otherwise the least prime at or above `minL`. */
  ghost function PrimeTableSize(keyNum: int): (q: int)
    ensures keyNum <= 0 ==> q <= 0
    ensures keyNum == 1 ==> q == 1
    ensures keyNum >= 2 ==> IsPrime(q) && q >= keyNum
    ensures MinLength(keyNum) > 3 ==> IsPrime(q) && q >= MinLength(keyNum)
  {
    var minL := MinLength(keyNum);
    assert keyNum == 2 ==> minL == 2;
    assert keyNum == 3 ==> minL == 3;
    if minL <= 3 then minL else NextPrime(minL)
  }

  /** `rolling_table_size` as evidently intended: after a divisor is found
      the candidate goes up by one and trial division starts over, and the
      candidate returned is the first one without a divisor. */
  method RollingPrimeTableSize(keyNum: int) returns (q: int)
    ensures q == PrimeTableSize(keyNum)
  {
    var minL := MinLength(keyNum);
    if minL <= 3 {
      return minL;
    }
    MinLengthNotFour(keyNum);
    q := minL;
    var prime := TrialDivision(q);
    while !prime
      invariant minL <= q <= NextPrime(minL)
      invariant prime == IsPrime(q)
      decreases NextPrime(minL) - q
    {
      q := q + 1;
      prime := TrialDivision(q);
    }
  }
}
