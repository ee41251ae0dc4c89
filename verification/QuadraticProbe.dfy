/** Quadratic rehash: probe `k` of a key that hashes to `h` is bucket `h + k * k`,
    reached by steps of 1, 3, 5, ...  bin/ld.c and etc/sa.c both rely on it, with
    tables of 2 * 1103 and of 1103 buckets; 1103 is prime. */
module QuadraticProbe {

  const PRIME: nat := 1103

  lemma SmallDivisors(d: nat)
    requires 2 <= d <= 33
    ensures PRIME % d != 0
  {
  }

  lemma Bounds(e: int, d: nat)
    requires 0 <= e
    ensures 34 <= e ==> 34 * d <= e * d
    ensures e <= 1 ==> e * d <= d
  {
  }

  lemma PrimeHasNoDivisor(d: nat)
    requires 2 <= d < PRIME
    ensures PRIME % d != 0
  {
    if PRIME % d == 0 {
      var e := PRIME / d;
      assert PRIME == e * d;
      if d <= 33 {
        SmallDivisors(d);
      } else {
        Bounds(e, d);
        MultipleMod(d, e);
        SmallDivisors(e);
      }
    }
  }

  lemma MultipleMod(a: int, m: nat)
    requires 0 < m
    ensures m * a % m == 0 && a * m % m == 0
  {
    DivisionUnique(m * a, m, a, 0);
    assert a * m == m * a;
  }

  lemma DivisionUnique(x: int, m: nat, q: int, r: nat)
    requires r < m && x == m * q + r
    ensures x / m == q && x % m == r
  {
    var p, s := x / m, x % m;
    assert x == m * p + s;
    if p < q {
      Grows(m, p, q);
    } else if q < p {
      Grows(m, q, p);
    }
  }

  lemma Grows(m: nat, p: int, q: int)
    requires p < q
    ensures m * p + m <= m * q
  {
    assert m * q - m * p == m * (q - p);
    AtLeastOnce(m, q - p);
  }

  lemma AtLeastOnce(m: nat, k: int)
    requires 1 <= k
    ensures m <= m * k
  {
    assert m * k == m + m * (k - 1);
  }

  /** A prime that divides a product and not the smaller factor divides the other. */
  lemma {:induction false} Euclid(a: nat, b: int)
    requires 0 < a < PRIME && a * b % PRIME == 0
    ensures b % PRIME == 0
    decreases a
  {
    if a > 1 {
      var q, r := PRIME / a, PRIME % a;
      PrimeHasNoDivisor(a);
      assert PRIME == a * q + r;
      var t := a * b / PRIME;
      assert a * b == PRIME * t;
      calc {
        r * b;
        (PRIME - a * q) * b;
        PRIME * b - a * q * b;
        { assert a * q * b == q * (a * b); }
        PRIME * b - q * (PRIME * t);
        { assert q * (PRIME * t) == PRIME * (q * t); }
        PRIME * b - PRIME * (q * t);
        PRIME * (b - q * t);
      }
      MultipleMod(b - q * t, PRIME);
      Euclid(r, b);
    }
  }

  /** Two squares less than `PRIME` apart in both sum and difference differ. */
  lemma SquaresDiffer(j: nat, k: nat)
    requires j < k && k - j < PRIME && (k * k - j * j) % PRIME == 0
    ensures (k + j) % PRIME == 0
  {
    assert k * k - j * j == (k - j) * (k + j);
    Euclid(k - j, k + j);
  }

  function Probe(h: nat, k: nat, size: nat): (b: nat)
    requires 0 < size
    ensures b < size
  {
    (h + k * k) % size
  }

  lemma SameRemainder(x: nat, y: nat, m: nat)
    requires 0 < m && x % m == y % m
    ensures (y - x) % m == 0
  {
    var p, q := x / m, y / m;
    assert x == m * p + x % m && y == m * q + y % m;
    assert y - x == m * (q - p);
    MultipleMod(q - p, m);
  }

  /** In a table of `PRIME` buckets the first `(PRIME + 1) / 2` probes differ. */
  lemma ProbesDifferPrime(h: nat, j: nat, k: nat)
    requires j < k && k <= PRIME / 2
    ensures Probe(h, j, PRIME) != Probe(h, k, PRIME)
  {
    if Probe(h, j, PRIME) == Probe(h, k, PRIME) {
      SameRemainder(h + j * j, h + k * k, PRIME);
      SquaresDiffer(j, k);
    }
  }

  /** In a table of twice `PRIME` buckets the first `PRIME` probes differ. */
  lemma ProbesDifferTwice(h: nat, j: nat, k: nat)
    requires j < k < PRIME
    ensures Probe(h, j, 2 * PRIME) != Probe(h, k, 2 * PRIME)
  {
    if Probe(h, j, 2 * PRIME) == Probe(h, k, 2 * PRIME) {
      SameRemainder(h + j * j, h + k * k, 2 * PRIME);
      TwiceIsBoth(k * k - j * j);
      SquaresDiffer(j, k);
      OddDifference(j, k);
    }
  }

  lemma TwiceIsBoth(x: int)
    requires x % (2 * PRIME) == 0
    ensures x % PRIME == 0 && x % 2 == 0
  {
  }

  /** Squares whose roots add up to an odd number differ by an odd number. */
  lemma OddDifference(j: nat, k: nat)
    requires j < k < PRIME && (k + j) % PRIME == 0
    ensures (k * k - j * j) % 2 == 1
  {
    assert k + j == PRIME;
    assert k * k - j * j == (k - j) * PRIME == 2 * ((k - j) * (PRIME / 2)) + (k - j);
    assert k - j == PRIME - 2 * j;
  }

  /** The next bucket, as the original finds it by adding the step. */
  lemma NextProbe(h: nat, k: nat, size: nat)
    requires 0 < size && 2 * k + 1 <= size
    ensures Probe(h, k + 1, size)
            == (if Probe(h, k, size) + (2 * k + 1) >= size then Probe(h, k, size) + (2 * k + 1) - size
                else Probe(h, k, size) + (2 * k + 1))
  {
    var x, p := h + k * k, Probe(h, k, size);
    var q := x / size;
    assert x == size * q + p;
    assert h + (k + 1) * (k + 1) == x + (2 * k + 1);
    if p + (2 * k + 1) >= size {
      assert size * (q + 1) == size * q + size;
      DivisionUnique(x + (2 * k + 1), size, q + 1, p + (2 * k + 1) - size);
    } else {
      DivisionUnique(x + (2 * k + 1), size, q, p + (2 * k + 1));
    }
  }

  // ---------------------------------------------------------------- counting buckets

  /** The buckets of the first `n` probes. */
  ghost function Probed(h: nat, n: nat, size: nat): set<nat>
    requires 0 < size
  {
    if n == 0 then {} else Probed(h, n - 1, size) + {Probe(h, n - 1, size)}
  }

  lemma {:induction false} ProbedIn(h: nat, n: nat, size: nat, b: nat)
    requires 0 < size
    ensures b in Probed(h, n, size) ==> exists k :: 0 <= k < n && Probe(h, k, size) == b
  {
    if n > 0 {
      ProbedIn(h, n - 1, size, b);
      assert b == Probe(h, n - 1, size) ==> 0 <= n - 1 < n && Probe(h, n - 1, size) == b;
    }
  }

  lemma {:induction false} ProbedHas(h: nat, n: nat, size: nat, k: nat)
    requires 0 < size && k < n
    ensures Probe(h, k, size) in Probed(h, n, size)
  {
    if k < n - 1 {
      ProbedHas(h, n - 1, size, k);
    }
  }

  /** The table sizes in use, each with a number of probes that never repeat. */
  predicate Sizes(size: nat, n: nat)
  {
    (size == PRIME && n <= PRIME / 2 + 1) || (size == 2 * PRIME && n <= PRIME)
  }

  lemma {:induction false} ProbedCount(h: nat, n: nat, size: nat)
    requires Sizes(size, n)
    ensures |Probed(h, n, size)| == n
  {
    if n > 0 {
      ProbedCount(h, n - 1, size);
      var b := Probe(h, n - 1, size);
      if b in Probed(h, n - 1, size) {
        ProbedIn(h, n - 1, size, b);
        var k :| 0 <= k < n - 1 && Probe(h, k, size) == b;
        if size == PRIME {
          ProbesDifferPrime(h, k, n - 1);
        } else {
          ProbesDifferTwice(h, k, n - 1);
        }
      }
    }
  }

  lemma SubsetSmaller(a: set<nat>, b: set<nat>)
    requires a <= b
    ensures |a| <= |b|
  {
    assert b == a + (b - a);
  }

  /** Fewer occupied buckets than probes: one of the probes finds an empty bucket. */
  lemma SomeProbeEmpty(h: nat, n: nat, size: nat, occupied: set<nat>) returns (k: nat)
    requires Sizes(size, n) && |occupied| < n
    ensures k < n && Probe(h, k, size) !in occupied
  {
    ProbedCount(h, n, size);
    if Probed(h, n, size) <= occupied {
      SubsetSmaller(Probed(h, n, size), occupied);
    }
    var b :| b in Probed(h, n, size) && b !in occupied;
    ProbedIn(h, n, size, b);
    k :| 0 <= k < n && Probe(h, k, size) == b;
  }

  /** As many occupied buckets as probes, all of them probed: every probe is occupied. */
  lemma AllProbesOccupied(h: nat, n: nat, size: nat, occupied: set<nat>, k: nat)
    requires Sizes(size, n) && |occupied| == n && k < n
    requires occupied <= Probed(h, n, size)
    ensures Probe(h, k, size) in occupied
  {
    ProbedCount(h, n, size);
    ProbedHas(h, n, size, k);
    var rest := Probed(h, n, size) - occupied;
    assert Probed(h, n, size) == occupied + rest;
    assert |rest| == 0;
  }
}
