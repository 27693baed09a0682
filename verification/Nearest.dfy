/** The first elements of a set in an order given by a number for each element, and how that
    choice changes when the set grows by one element. */
module Nearest {

  /** Distinct elements get distinct numbers. */
  ghost predicate Injective(s: set<nat>, f: nat -> int)
  {
    forall x, y :: x in s && y in s && f(x) == f(y) ==> x == y
  }

  ghost function Below(s: set<nat>, f: nat -> int, k: nat): set<nat>
  {
    set y | y in s && f(y) < f(k)
  }

  /** The number of elements before k. */
  ghost function Rank(s: set<nat>, f: nat -> int, k: nat): nat { |Below(s, f, k)| }

  /** The first n elements of s. */
  ghost function First(s: set<nat>, f: nat -> int, n: nat): set<nat>
  {
    set k | k in s && Rank(s, f, k) < n
  }

  lemma SubsetSize<T>(a: set<T>, b: set<T>)
    requires a <= b
    ensures |a| <= |b|
    ensures a != b ==> |a| < |b|
  {
    assert b == a + (b - a);
    assert a != b ==> exists x :: x in b - a;
  }

  lemma RankInOrder(s: set<nat>, f: nat -> int, x: nat, y: nat)
    requires x in s && f(x) < f(y)
    ensures Rank(s, f, x) < Rank(s, f, y)
  {
    SubsetSize(Below(s, f, x), Below(s, f, y));
    assert x in Below(s, f, y) && x !in Below(s, f, x);
  }

  lemma RankIdentifies(s: set<nat>, f: nat -> int, x: nat, y: nat)
    requires Injective(s, f) && x in s && y in s && Rank(s, f, x) == Rank(s, f, y)
    ensures x == y
  {
    if f(x) < f(y) {
      RankInOrder(s, f, x, y);
    } else if f(y) < f(x) {
      RankInOrder(s, f, y, x);
    }
  }

  /** A large enough choice is the whole set. */
  lemma FirstOfFew(s: set<nat>, f: nat -> int, n: nat)
    requires n >= |s|
    ensures First(s, f, n) == s
  {
    forall k | k in s
      ensures Rank(s, f, k) < n
    {
      SubsetSize(Below(s, f, k), s);
      assert k !in Below(s, f, k);
    }
  }

  lemma FirstIsPart(s: set<nat>, f: nat -> int, n: nat)
    ensures First(s, f, n) <= s
  {
  }

  lemma {:induction false} Farthest(s: set<nat>, f: nat -> int) returns (x: nat)
    requires s != {}
    ensures x in s && forall y :: y in s ==> f(y) <= f(x)
    decreases s
  {
    x :| x in s;
    if s != {x} {
      var y := Farthest(s - {x}, f);
      x := if f(x) < f(y) then y else x;
    }
  }

  lemma FirstWithoutFarthest(s: set<nat>, f: nat -> int, x: nat, n: nat)
    requires Injective(s, f) && x in s && n < |s| && forall y :: y in s ==> f(y) <= f(x)
    ensures First(s, f, n) == First(s - {x}, f, n)
  {
    forall y | y in s && y != x
      ensures Rank(s, f, y) == Rank(s - {x}, f, y)
    {
      assert Below(s, f, y) == Below(s - {x}, f, y);
    }
    assert Below(s, f, x) == s - {x};
  }

  /** A choice has as many elements as were asked for, or is everything. */
  lemma {:induction false} FirstSize(s: set<nat>, f: nat -> int, n: nat)
    requires Injective(s, f)
    ensures |First(s, f, n)| == if n < |s| then n else |s|
    decreases s
  {
    if n >= |s| {
      FirstOfFew(s, f, n);
    } else {
      var x := Farthest(s, f);
      FirstWithoutFarthest(s, f, x, n);
      FirstSize(s - {x}, f, n);
    }
  }

  // ---------------------------------------------------------------- ordered lists

  ghost predicate Increasing(r: seq<nat>, f: nat -> int)
  {
    forall i, j :: 0 <= i < j < |r| ==> f(r[i]) < f(r[j])
  }

  ghost function Elements(r: seq<nat>): set<nat> { set k | k in r }

  lemma {:induction false} DistinctSize(r: seq<nat>)
    requires forall i, j :: 0 <= i < j < |r| ==> r[i] != r[j]
    ensures |Elements(r)| == |r|
  {
    if r != [] {
      var before := r[..|r| - 1];
      DistinctSize(before);
      assert Elements(r) == Elements(before) + {r[|r| - 1]};
    }
  }

  /** In an ordered list the index is the rank. */
  lemma IndexIsRank(r: seq<nat>, f: nat -> int, i: nat)
    requires Increasing(r, f) && i < |r|
    ensures Rank(Elements(r), f, r[i]) == i
  {
    var before := r[..i];
    DistinctSize(before);
    forall y | y in Below(Elements(r), f, r[i])
      ensures y in Elements(before)
    {
      var j :| 0 <= j < |r| && r[j] == y;
      assert j < i;
      assert before[j] == y;
    }
    assert Below(Elements(r), f, r[i]) == Elements(before);
  }

  /** The first elements of an ordered list are the first elements of its set. */
  lemma PrefixIsFirst(r: seq<nat>, f: nat -> int, n: nat)
    requires Increasing(r, f) && n <= |r|
    ensures Elements(r[..n]) == First(Elements(r), f, n)
  {
    forall k | k in Elements(r[..n])
      ensures k in First(Elements(r), f, n)
    {
      var j :| 0 <= j < n && r[j] == k;
      IndexIsRank(r, f, j);
    }
    forall k | k in First(Elements(r), f, n)
      ensures k in Elements(r[..n])
    {
      var i :| 0 <= i < |r| && r[i] == k;
      IndexIsRank(r, f, i);
      assert r[..n][i] == k;
    }
  }

  // ---------------------------------------------------------------- one more element

  /** At most one element. */
  ghost predicate AtMostOne(s: set<nat>)
  {
    forall x, y :: x in s && y in s ==> x == y
  }

  lemma AtMostOneSize(s: set<nat>)
    ensures AtMostOne(s) <==> |s| <= 1
  {
    if x :| x in s {
      if AtMostOne(s) {
        assert s == {x};
      } else {
        var y, z :| y in s && z in s && y != z;
        SubsetSize({y, z}, s);
      }
    }
  }

  /** How one choice differs from another by the arrival of one element k: nothing but k comes, at
      most one element goes. */
  ghost predicate OneArrives(w: set<nat>, w': set<nat>, k: nat)
  {
    k !in w && w' <= w + {k} && AtMostOne(w - w')
  }

  lemma RankGrows(s: set<nat>, f: nat -> int, k: nat, y: nat)
    requires k !in s
    ensures Rank(s + {k}, f, y) == Rank(s, f, y) + if f(k) < f(y) then 1 else 0
  {
    assert Below(s + {k}, f, y) == Below(s, f, y) + if f(k) < f(y) then {k} else {};
  }

  /** Choosing the first n elements of a set that grows by k. */
  lemma ChoiceFromGrownSet(s: set<nat>, f: nat -> int, k: nat, n: nat)
    requires k !in s && Injective(s, f)
    ensures OneArrives(First(s, f, n), First(s + {k}, f, n), k)
  {
    var w, w' := First(s, f, n), First(s + {k}, f, n);
    forall y | y in s
      ensures Rank(s, f, y) <= Rank(s + {k}, f, y) <= Rank(s, f, y) + 1
    {
      RankGrows(s, f, k, y);
    }
    forall x, y | x in w - w' && y in w - w'
      ensures x == y
    {
      assert Rank(s, f, x) == n - 1 && Rank(s, f, y) == n - 1;
      RankIdentifies(s, f, x, y);
    }
  }

  /** An element that stays in the choice w but drops out of its first n is pushed out by k. */
  lemma PushedOut(w: set<nat>, w': set<nat>, f: nat -> int, k: nat, n: nat, y: nat)
    requires OneArrives(w, w', k)
    requires y in First(w, f, n) && y in w' && y !in First(w', f, n)
    ensures Rank(w, f, y) == n - 1
    ensures Below(w, f, y) <= w'
  {
    var before, after := Below(w, f, y), Below(w', f, y);
    assert after <= before + {k};
    SubsetSize(after, before + {k});
    assert k !in before;
    assert |before + {k}| == |before| + 1;
    forall x | x in before
      ensures x in w'
    {
      if x !in w' {
        LeaverMakesRoom(w, w', f, k, y, x);
      }
    }
  }

  lemma LeaverMakesRoom(w: set<nat>, w': set<nat>, f: nat -> int, k: nat, y: nat, x: nat)
    requires OneArrives(w, w', k) && x in Below(w, f, y) && x !in w'
    ensures Rank(w', f, y) <= Rank(w, f, y)
  {
    var before := Below(w, f, y);
    SubsetSize(Below(w', f, y), before - {x} + {k});
    assert |before - {x} + {k}| == |before|;
  }

  /** Choosing the first n of two choices that differ by one arrival. */
  lemma ChoiceFromChoices(w: set<nat>, w': set<nat>, f: nat -> int, k: nat, n: nat)
    requires OneArrives(w, w', k) && Injective(w, f)
    ensures AtMostOne(First(w, f, n) - First(w', f, n))
  {
    var a, a' := First(w, f, n), First(w', f, n);
    forall x, y | x in a - a' && y in a - a'
      ensures x == y
    {
      if x in w' && y in w' {
        PushedOut(w, w', f, k, n, x);
        PushedOut(w, w', f, k, n, y);
        RankIdentifies(w, f, x, y);
      } else if x in w' {
        StayersAndLeavers(w, w', f, k, n, x, y);
      } else if y in w' {
        StayersAndLeavers(w, w', f, k, n, y, x);
      } else {
        assert x in w - w' && y in w - w';
      }
    }
  }

  /** Not both a leaver and a pushed out element are missing. */
  lemma StayersAndLeavers(w: set<nat>, w': set<nat>, f: nat -> int, k: nat, n: nat, y: nat, x: nat)
    requires OneArrives(w, w', k) && Injective(w, f)
    requires y in First(w, f, n) && y in w' && y !in First(w', f, n)
    requires x in w && x !in w'
    ensures x !in First(w, f, n)
  {
    PushedOut(w, w', f, k, n, y);
    assert x !in Below(w, f, y);
    assert f(y) < f(x);
    RankInOrder(w, f, y, x);
  }
}
