/** Double hashing in a table of prime size: every slot is probed before any is probed twice. */
module HashProbe {
  import opened Sieve

  ghost predicate Prime(p: nat) {
    p >= 2 && forall d | 1 < d < p :: p % d != 0
  }

  /** The address of the k-th probe: step down, and wrap around below zero. */
  function Probe(start: nat, dec: nat, p: nat, k: nat): (a: nat)
    requires start < p && 0 < dec < p
    ensures a < p
  {
    if k == 0 then start
    else
      var a := Probe(start, dec, p, k - 1);
      if a < dec then a + p - dec else a - dec
  }

  // ----- Arithmetic -----

  lemma MultipleIsLarge(a: int, p: int)
    requires p >= 0
    ensures a >= 1 ==> a * p >= p
    ensures a <= -1 ==> a * p <= -p
    ensures a >= 0 ==> a * p >= 0
  {
  }

  lemma RemainderIsUnique(x: nat, p: nat, q: nat, r: nat)
    requires p > 0 && r < p && x == q * p + r
    ensures x % p == r
  {
    assert x == p * (x / p) + x % p;
    assert (x / p - q) * p == (x / p) * p - q * p;
    MultipleIsLarge(x / p - q, p);
  }

  /** Two probes at the same address differ by a multiple of the table size. */
  lemma {:induction false} ProbeIsLinear(start: nat, dec: nat, p: nat, k: nat) returns (q: nat)
    requires start < p && 0 < dec < p
    ensures Probe(start, dec, p, k) + k * dec == start + q * p
  {
    if k == 0 {
      q := 0;
    } else {
      q := ProbeIsLinear(start, dec, p, k - 1);
      assert k * dec == (k - 1) * dec + dec;
      if Probe(start, dec, p, k - 1) < dec {
        assert (q + 1) * p == q * p + p;
        q := q + 1;
      }
    }
  }

  /** A prime divides no product of two smaller positive numbers. */
  lemma {:induction false} PrimeProduct(p: nat, k: nat, dec: nat, q: nat)
    requires Prime(p) && 0 < k < p && 0 < dec < p
    ensures k * dec != q * p
    decreases k
  {
    if k * dec == q * p {
      if k == 1 {
        MultipleIsLarge(q, p);
      } else {
        var r, m := p % k, p / k;
        assert p == m * k + r;
        assert r * dec == p * dec - m * (k * dec) by {
          assert (m * k + r) * dec == m * k * dec + r * dec;
          assert m * k * dec == m * (k * dec);
        }
        assert m * (k * dec) == m * q * p;
        var q1 := dec - m * q;
        assert q1 * p == dec * p - m * q * p;
        assert r * dec == q1 * p;
        MultipleIsLarge(q1, p);
        MultipleIsLarge(r, dec);
        PrimeProduct(p, r, dec, q1);
      }
    }
  }

  lemma ProbesDiffer(start: nat, dec: nat, p: nat, i: nat, j: nat)
    requires Prime(p) && start < p && 0 < dec < p && i < j < p
    ensures Probe(start, dec, p, i) != Probe(start, dec, p, j)
  {
    var qi := ProbeIsLinear(start, dec, p, i);
    var qj := ProbeIsLinear(start, dec, p, j);
    if Probe(start, dec, p, i) == Probe(start, dec, p, j) {
      assert (j - i) * dec == j * dec - i * dec;
      assert (qj - qi) * p == qj * p - qi * p;
      assert (j - i) * dec > 0;
      MultipleIsLarge(qj - qi, p);
      PrimeProduct(p, j - i, dec, qj - qi);
    }
  }

  // ----- All slots are visited -----

  function Visited(start: nat, dec: nat, p: nat, n: nat): set<nat>
    requires start < p && 0 < dec < p
  {
    set k: nat | k < n :: Probe(start, dec, p, k)
  }

  lemma {:induction false} VisitedSize(start: nat, dec: nat, p: nat, n: nat)
    requires Prime(p) && start < p && 0 < dec < p && n <= p
    ensures |Visited(start, dec, p, n)| == n
  {
    if n > 0 {
      VisitedSize(start, dec, p, n - 1);
      var last := Probe(start, dec, p, n - 1);
      forall k: nat | k < n - 1
        ensures Probe(start, dec, p, k) != last
      {
        ProbesDiffer(start, dec, p, k, n - 1);
      }
      assert Visited(start, dec, p, n) == Visited(start, dec, p, n - 1) + {last};
    }
  }

  function Slots(p: nat): set<nat> {
    if p == 0 then {} else Slots(p - 1) + {p - 1}
  }

  lemma {:induction false} SlotsAreAll(p: nat)
    ensures |Slots(p)| == p && forall a: nat :: a in Slots(p) <==> a < p
  {
    if p > 0 {
      SlotsAreAll(p - 1);
    }
  }

  lemma SubsetSize(a: set<nat>, b: set<nat>)
    requires a <= b
    ensures |a| <= |b| && (|a| == |b| ==> a == b)
  {
    assert b == a + (b - a);
    if |a| == |b| {
      assert |b - a| == 0;
    }
  }

  /** Every slot is reached within p probes. */
  lemma EverySlotIsProbed(start: nat, dec: nat, p: nat, a: nat) returns (k: nat)
    requires Prime(p) && start < p && 0 < dec < p && a < p
    ensures k < p && Probe(start, dec, p, k) == a
  {
    VisitedSize(start, dec, p, p);
    SlotsAreAll(p);
    SubsetSize(Visited(start, dec, p, p), Slots(p));
    assert a in Slots(p);
    k :| k < p && Probe(start, dec, p, k) == a;
  }

  // ----- The three table sizes -----

  lemma {:induction false} DivisorCheck(n: nat, j: nat, i: nat)
    requires NoneUpTo(n, j) && 0 < i <= j
    ensures n % (6 * i - 1) != 0 && n % (6 * i + 1) != 0
  {
    if i < j {
      DivisorCheck(n, j - 1, i);
    }
  }

  /** A divisor of a divisor is a divisor. */
  lemma DividesTransitively(n: nat, d: nat, c: nat)
    requires c > 0 && d > 0 && n % d == 0 && d % c == 0
    ensures n % c == 0
  {
    var e, f := n / d, d / c;
    assert n == d * e && d == c * f;
    assert n == (f * e) * c by {
      assert (c * f) * e == c * (f * e);
    }
    RemainderIsUnique(n, c, f * e, 0);
  }

  /** A number that neither 2 nor 3 divides stands next to a multiple of six. */
  lemma NextToSix(d: nat) returns (i: nat)
    requires d >= 2 && d % 2 != 0 && d % 3 != 0
    ensures i > 0 && (d == 6 * i - 1 || d == 6 * i + 1)
  {
    var q, r := d / 6, d % 6;
    assert d == 6 * q + r;
    if r == 0 || r == 2 || r == 4 {
      RemainderIsUnique(d, 2, 3 * q + r / 2, 0);
    } else if r == 3 {
      RemainderIsUnique(d, 3, 2 * q + 1, 0);
    }
    i := if r == 1 then q else q + 1;
  }

  lemma NoSmallDivisor(n: nat, j: nat, d: nat)
    requires NoneUpTo(n, j) && n % 2 != 0 && n % 3 != 0
    requires 2 <= d < 6 * j + 5
    ensures n % d != 0
  {
    if n % d == 0 {
      if d % 2 == 0 {
        DividesTransitively(n, d, 2);
      } else if d % 3 == 0 {
        DividesTransitively(n, d, 3);
      } else {
        var i := NextToSix(d);
        DivisorCheck(n, j, i);
      }
    }
  }

  lemma ProductIsLarge(d: nat, e: nat, root: nat)
    requires d >= root && e >= root
    ensures d * e >= root * root
  {
  }

  lemma SmallerFactor(n: nat, d: nat, root: nat) returns (e: nat)
    requires 1 < d < n && n % d == 0 && n < root * root
    ensures 2 <= e < root && n % e == 0
  {
    var f := n / d;
    assert n == d * f;
    if d < root {
      e := d;
    } else {
      e := f;
      if f >= root {
        ProductIsLarge(d, f, root);
      }
      assert f != 0 && f != 1;
      RemainderIsUnique(n, f, d, 0);
    }
  }

  /** Trial division up to the square root is enough. */
  lemma TrialDivision(n: nat, j: nat)
    requires n >= 2 && n % 2 != 0 && n % 3 != 0 && NoneUpTo(n, j) && n < (6 * j + 5) * (6 * j + 5)
    ensures Prime(n)
  {
    hide NoneUpTo;
    forall d | 1 < d < n
      ensures n % d != 0
    {
      if n % d == 0 {
        var e := SmallerFactor(n, d, 6 * j + 5);
        NoSmallDivisor(n, j, e);
      }
    }
  }

  lemma NameTableSizeIsPrime()
    ensures Prime(NAME_HASH_PRIME)
  {
    SieveNames();
    TrialDivision(16381, 21);
  }

  lemma PackageTableSizeIsPrime()
    ensures Prime(PACKAGE_HASH_PRIME)
  {
    SievePackages();
    TrialDivision(10007, 17);
  }

  lemma StatusTableSizeIsPrime()
    ensures Prime(STATUS_HASH_PRIME)
  {
    SieveStatus();
    TrialDivision(8191, 16);
  }
}

/** Trial division of the three hash table sizes by the numbers next to multiples of six. */
module Sieve {

  const NAME_HASH_PRIME := 16381
  const PACKAGE_HASH_PRIME := 10007
  const STATUS_HASH_PRIME := 8191

  /** No neighbour of 6, 12, up to 6 * j divides n. */
  predicate NoneUpTo(n: nat, j: nat) {
    j == 0 || (n % (6 * j - 1) != 0 && n % (6 * j + 1) != 0 && NoneUpTo(n, j - 1))
  }

  lemma SieveNames()
    ensures NoneUpTo(16381, 21)
  {
    assert NoneUpTo(16381, 5);
    assert NoneUpTo(16381, 10);
    assert NoneUpTo(16381, 15);
  }

  lemma SievePackages()
    ensures NoneUpTo(10007, 17)
  {
    assert NoneUpTo(10007, 6);
    assert NoneUpTo(10007, 12);
  }

  lemma SieveStatus()
    ensures NoneUpTo(8191, 16)
  {
    assert NoneUpTo(8191, 5);
    assert NoneUpTo(8191, 10);
  }
}
