/** Counting the residues of consecutive numbers. */
module Residues {
  import opened Arithmetic

  /** Whether number j after the start leaves a residue from low up to high. */
  predicate Hit(start: nat, j: nat, m: nat, low: nat, high: nat)
    requires m > 0
  {
    low <= (start + j) % m < high
  }

  /** The indices at which n consecutive numbers leave such a residue. */
  ghost function Hits(start: nat, n: nat, m: nat, low: nat, high: nat): set<nat>
    requires m > 0
  {
    set j: nat | j < n && Hit(start, j, m, low, high)
  }

  /** Where m consecutive numbers leave a given residue. */
  lemma ResidueInBlock(start: nat, m: nat, r: nat) returns (t: nat)
    requires r < m
    ensures t < m && (start + t) % m == r
  {
    t := (r - start) % m;
    var q := (r - start) / m;
    assert start + t == (-q) * m + r;
    DivModUnique(start + t, m, -q, r);
  }

  lemma SameResidueNearby(x: nat, y: nat, m: nat)
    requires m > 0 && x % m == y % m && x <= y < x + m
    ensures x == y
  {
    var a, b := x / m, y / m;
    assert y - x == m * (b - a);
    ProductPastFactor(m, b - a);
  }

  /** A further block of m numbers adds one index. */
  lemma OneMoreBlock(start: nat, n: nat, m: nat, r: nat) returns (j: nat)
    requires r < m
    ensures n <= j && Hits(start, n + m, m, r, r + 1) == Hits(start, n, m, r, r + 1) + {j}
  {
    var t := ResidueInBlock(start + n, m, r);
    j := n + t;
    var next := r + 1;
    forall i: nat | n <= i < n + m && Hit(start, i, m, r, next)
      ensures i == j
    {
      if i <= j {
        SameResidueNearby(start + i, start + j, m);
      } else {
        SameResidueNearby(start + j, start + i, m);
      }
    }
    assert Hit(start, j, m, r, r + 1);
    hide Hit;
  }

  /** Among k * m consecutive numbers exactly k leave a given residue. */
  lemma {:induction false} OneResidue(start: nat, m: nat, k: nat, r: nat)
    requires r < m
    ensures |Hits(start, k * m, m, r, r + 1)| == k
    decreases k
  {
    if k == 0 {
      assert Hits(start, 0, m, r, r + 1) == {};
    } else {
      var n := (k - 1) * m;
      assert k * m == n + m;
      OneResidue(start, m, k - 1, r);
      var j := OneMoreBlock(start, n, m, r);
      assert j !in Hits(start, n, m, r, r + 1);
    }
  }

  lemma RangeSplits(start: nat, n: nat, m: nat, low: nat, high: nat)
    requires low < high && m > 0
    ensures |Hits(start, n, m, low, high)| ==
      |Hits(start, n, m, low, high - 1)| + |Hits(start, n, m, high - 1, high)|
  {
    var below, last := Hits(start, n, m, low, high - 1), Hits(start, n, m, high - 1, high);
    forall j: nat
      ensures Hit(start, j, m, low, high) <==> Hit(start, j, m, low, high - 1) || Hit(start, j, m, high - 1, high)
      ensures !(Hit(start, j, m, low, high - 1) && Hit(start, j, m, high - 1, high))
    {
    }
    hide Hit;
    assert Hits(start, n, m, low, high) == below + last;
    assert below * last == {};
  }

  /** Among k * m consecutive numbers exactly k leave each residue of a range. */
  lemma {:induction false} ResiduesAreEven(start: nat, m: nat, k: nat, low: nat, high: nat)
    requires low <= high <= m && m > 0
    ensures |Hits(start, k * m, m, low, high)| == k * (high - low)
    decreases high
  {
    if low == high {
      assert Hits(start, k * m, m, low, high) == {};
      assert k * 0 == 0;
    } else {
      hide Hits;
      ResiduesAreEven(start, m, k, low, high - 1);
      OneResidue(start, m, k, high - 1);
      RangeSplits(start, k * m, m, low, high);
      assert k * (high - low) == k * (high - 1 - low) + k;
    }
  }
}
