/** Which keys of a hashring a client sees (bridgedb/bridgerings.py), on values. */
module Windows {
  import opened Bisect
  import opened Nearest

  /** Positions are digests of 20 bytes, compared byte by byte, that is, as 160-bit numbers. */
  const DIGEST_SPACE := 0x1_0000000000_0000000000_0000000000_0000000000

  /** The way from a position forward to a key, around the end of the ring. */
  function Clockwise(pos: nat): nat -> int
  {
    (k: nat) => if k >= pos then k - pos else k - pos + DIGEST_SPACE
  }

  function Ascending(): nat -> int { (k: nat) => k as int }

  ghost predicate InSpace(s: set<nat>) { forall k :: k in s ==> k < DIGEST_SPACE }

  // ---------------------------------------------------------------- sorting

  lemma SortedCons(x: nat, s: seq<nat>)
    requires Sorted(s) && forall y :: y in multiset(s) ==> x <= y
    ensures Sorted([x] + s)
  {
    forall i | 0 <= i < |s|
      ensures x <= s[i]
    {
      assert s[i] in multiset(s);
    }
  }

  function InsertInOrder(k: nat, s: seq<nat>): (r: seq<nat>)
    requires Sorted(s)
    ensures Sorted(r) && multiset(r) == multiset(s) + multiset{k}
  {
    if s == [] then [k]
    else
      HeadIsLeast(s);
      if k <= s[0] then
        SortedCons(k, s);
        [k] + s
      else
        SortedCons(s[0], InsertInOrder(k, s[1..]));
        [s[0]] + InsertInOrder(k, s[1..])
  }

  lemma HeadIsLeast(s: seq<nat>)
    requires Sorted(s) && s != []
    ensures Sorted(s[1..]) && multiset(s) == multiset{s[0]} + multiset(s[1..])
    ensures forall y :: y in multiset(s) ==> s[0] <= y
  {
    assert s == [s[0]] + s[1..];
    assert forall y :: y in multiset(s) ==> y in s;
  }

  /** list.sort(). */
  function Sort(s: seq<nat>): (r: seq<nat>)
    ensures Sorted(r) && multiset(r) == multiset(s)
  {
    if s == [] then []
    else
      assert s == [s[0]] + s[1..];
      InsertInOrder(s[0], Sort(s[1..]))
  }

  lemma SameHeads(r: seq<nat>, s: seq<nat>)
    requires Sorted(r) && Sorted(s) && r != [] && s != [] && multiset(r) == multiset(s)
    ensures r[0] == s[0] && Sorted(r[1..]) && Sorted(s[1..]) && multiset(r[1..]) == multiset(s[1..])
  {
    hide Sorted;
    HeadIsLeast(r);
    HeadIsLeast(s);
    assert r[0] in multiset(s) && s[0] in multiset(r);
    assert multiset(r[1..]) == multiset(r) - multiset{r[0]};
    assert multiset(s[1..]) == multiset(s) - multiset{s[0]};
  }

  /** A sorted list is determined by its elements. */
  lemma {:induction false} SortedUnique(r: seq<nat>, s: seq<nat>)
    requires Sorted(r) && Sorted(s) && multiset(r) == multiset(s)
    ensures r == s
    decreases |r|
  {
    hide Sorted;
    assert |r| == |multiset(r)| == |multiset(s)| == |s|;
    if r != [] {
      SameHeads(r, s);
      SortedUnique(r[1..], s[1..]);
      assert r == [r[0]] + r[1..] && s == [s[0]] + s[1..];
    }
  }

  lemma SortOfSorted(s: seq<nat>)
    ensures Sorted(s) ==> Sort(s) == s
    ensures Sort(Sort(s)) == Sort(s)
  {
    if Sorted(s) {
      SortedUnique(Sort(s), s);
    }
    SortedUnique(Sort(Sort(s)), Sort(s));
  }

  lemma SortKeepsElements(s: seq<nat>)
    ensures Elements(Sort(s)) == Elements(s) && |Sort(s)| == |s|
  {
    assert |s| == |multiset(s)|;
    forall k
      ensures k in Sort(s) <==> k in s
    {
      assert k in Sort(s) <==> k in multiset(Sort(s));
      assert k in s <==> k in multiset(s);
    }
  }

  ghost predicate Distinct(s: seq<nat>)
  {
    forall i, j :: 0 <= i < j < |s| ==> s[i] != s[j]
  }

  lemma {:induction false} DistinctMultiset(s: seq<nat>)
    ensures Distinct(s) <==> forall k :: multiset(s)[k] <= 1
  {
    if s != [] {
      var before, last := s[..|s| - 1], s[|s| - 1];
      assert s == before + [last];
      DistinctMultiset(before);
      if Distinct(s) {
        assert last !in before;
        assert Distinct(before);
      }
      if forall k :: multiset(s)[k] <= 1 {
        forall k
          ensures multiset(before)[k] <= 1
        {
          assert multiset(s)[k] <= 1;
        }
        assert multiset(s)[last] <= 1;
        assert last !in multiset(before);
      }
    }
  }

  lemma SortOfDistinct(s: seq<nat>)
    requires Distinct(s)
    ensures Distinct(Sort(s)) && Increasing(Sort(s), Ascending())
  {
    DistinctMultiset(s);
    DistinctMultiset(Sort(s));
    var r := Sort(s);
    forall i, j | 0 <= i < j < |r|
      ensures r[i] < r[j]
    {
      assert r[i] <= r[j] && r[i] != r[j];
    }
  }

  /** The elements of a set in ascending order. */
  ghost function SortedSeq(s: set<nat>): (r: seq<nat>)
    ensures Increasing(r, Ascending()) && Elements(r) == s
  {
    if s == {} then []
    else
      var m := Largest(s);
      var r := SortedSeq(s - {m}) + [m];
      assert forall i :: 0 <= i < |r| - 1 ==> r[i] in Elements(SortedSeq(s - {m}));
      assert Elements(r) == Elements(SortedSeq(s - {m})) + {m};
      r
  }

  ghost function Largest(s: set<nat>): (m: nat)
    requires s != {}
    ensures m in s && forall k :: k in s ==> k <= m
  {
    var x :| x in s;
    if s == {x} then x
    else
      var y := Largest(s - {x});
      assert forall k :: k in s ==> k == x || k in s - {x};
      if x > y then x else y
  }

  /** An ascending list is the sorted list of its elements. */
  lemma {:induction false} SortedSeqUnique(r: seq<nat>)
    requires Increasing(r, Ascending())
    ensures SortedSeq(Elements(r)) == r
  {
    var q := SortedSeq(Elements(r));
    SameElementsSameSequence(r, q);
  }

  lemma {:induction false} SameElementsSameSequence(r: seq<nat>, q: seq<nat>)
    requires Increasing(r, Ascending()) && Increasing(q, Ascending()) && Elements(r) == Elements(q)
    ensures r == q
  {
    DistinctSize(r);
    DistinctSize(q);
    assert |r| == |q|;
    forall i | 0 <= i < |r|
      ensures r[i] == q[i]
    {
      IndexIsRank(r, Ascending(), i);
      IndexIsRank(q, Ascending(), i);
      assert r[i] in Elements(q) && q[i] in Elements(r);
      RankIdentifies(Elements(r), Ascending(), r[i], q[i]);
    }
  }

  // ---------------------------------------------------------------- windows

  function Min(a: nat, b: nat): nat { if a <= b then a else b }

  /** The slice that _getBridgeKeysAt takes from the sorted keys, wrapping around as needed. */
  function Slice(s: seq<nat>, pos: nat, n: nat): (r: seq<nat>)
    requires Sorted(s)
    ensures |r| == Min(n, |s|)
  {
    if n >= |s| then s
    else
      var idx := BisectLeft(s, pos);
      var r := s[idx..Min(idx + n, |s|)];
      if |r| < n then r + s[..n - |r|] else r
  }

  lemma ClockwiseInjective(s: set<nat>, pos: nat)
    requires InSpace(s) && pos < DIGEST_SPACE
    ensures Injective(s, Clockwise(pos))
  {
  }

  /** The list read from the bisection point around the ring. */
  function Rotated(s: seq<nat>, pos: nat): (r: seq<nat>)
    requires Sorted(s)
    ensures |r| == |s|
  {
    s[BisectLeft(s, pos)..] + s[..BisectLeft(s, pos)]
  }

  lemma RotatedElements(s: seq<nat>, pos: nat)
    requires Sorted(s)
    ensures Elements(Rotated(s, pos)) == Elements(s)
  {
    hide BisectLeft;
    var idx := BisectLeft(s, pos);
    assert s == s[..idx] + s[idx..];
  }

  lemma SliceIsRotation(s: seq<nat>, pos: nat, n: nat)
    requires Sorted(s) && n < |s|
    ensures Slice(s, pos, n) == Rotated(s, pos)[..n]
  {
    hide Sorted, BisectLeft;
    var idx := BisectLeft(s, pos);
    if idx + n <= |s| {
      PrefixOfTurn(s, idx, n);
      assert Slice(s, pos, n) == s[idx..idx + n];
    } else {
      PrefixPastTurn(s, idx, n);
      assert s[idx..|s|] == s[idx..];
    }
  }

  lemma PrefixOfTurn(s: seq<nat>, idx: nat, n: nat)
    requires idx + n <= |s|
    ensures (s[idx..] + s[..idx])[..n] == s[idx..idx + n]
  {
  }

  lemma PrefixPastTurn(s: seq<nat>, idx: nat, n: nat)
    requires idx <= |s| < idx + n && n <= |s|
    ensures (s[idx..] + s[..idx])[..n] == s[idx..] + s[..n - |s[idx..]|]
  {
  }

  /** The sorted keys, read from the bisection point around the ring, are in clockwise order. */
  lemma RotationIncreases(s: seq<nat>, pos: nat)
    requires Increasing(s, Ascending()) && InSpace(Elements(s)) && pos < DIGEST_SPACE
    ensures Sorted(s) && Increasing(Rotated(s, pos), Clockwise(pos))
  {
    var idx := BisectLeft(s, pos);
    var r, f := Rotated(s, pos), Clockwise(pos);
    forall i, j | 0 <= i < j < |r|
      ensures f(r[i]) < f(r[j])
    {
      var m := |s| - idx;
      var a := if i < m then idx + i else i - m;
      var b := if j < m then idx + j else j - m;
      assert r[i] == s[a] && r[j] == s[b];
      assert s[a] in Elements(s) && s[b] in Elements(s);
    }
  }

  /** The slice holds the n keys that come first clockwise from the position. */
  lemma SliceIsNearest(s: seq<nat>, pos: nat, n: nat)
    requires Increasing(s, Ascending()) && InSpace(Elements(s)) && pos < DIGEST_SPACE
    ensures Sorted(s)
    ensures Elements(Slice(s, pos, n)) == First(Elements(s), Clockwise(pos), n)
  {
    hide First, Clockwise, Rotated, Sorted, Elements;
    RotationIncreases(s, pos);
    if n >= |s| {
      DistinctSize(s);
      FirstOfFew(Elements(s), Clockwise(pos), n);
    } else {
      SliceIsRotation(s, pos, n);
      RotatedElements(s, pos);
      PrefixIsFirst(Rotated(s, pos), Clockwise(pos), n);
    }
  }

  // ---------------------------------------------------------------- minimal disruption

  /** The oversampled window of a client who is to get n bridges. */
  ghost function Window(keys: set<nat>, pos: nat, n: nat): set<nat>
  {
    First(keys, Clockwise(pos), n + n)
  }

  /** The keys of an unfiltered answer: the n smallest of the window. */
  ghost function AnswerKeys(keys: set<nat>, pos: nat, n: nat): set<nat>
  {
    First(Window(keys, pos, n), Ascending(), n)
  }

  /** A window holds twice as many keys as the client is to get bridges, or the whole ring. */
  lemma WindowSize(keys: set<nat>, pos: nat, n: nat)
    requires InSpace(keys) && pos < DIGEST_SPACE
    ensures |Window(keys, pos, n)| == Min(2 * n, |keys|)
  {
    hide First, Clockwise;
    ClockwiseInjective(keys, pos);
    FirstSize(keys, Clockwise(pos), n + n);
  }

  /** A new bridge takes at most one key out of any client's window, brings nothing but itself into
      it, and displaces at most one bridge from any unfiltered answer. */
  lemma MinimalDisruption(keys: set<nat>, k: nat, pos: nat, n: nat)
    requires InSpace(keys) && pos < DIGEST_SPACE && k !in keys
    ensures
      var w, w' := Window(keys, pos, n), Window(keys + {k}, pos, n);
      |w - w'| <= 1 && w' - w <= {k}
    ensures |AnswerKeys(keys, pos, n) - AnswerKeys(keys + {k}, pos, n)| <= 1
  {
    hide First, Clockwise, InSpace;
    var w, w' := Window(keys, pos, n), Window(keys + {k}, pos, n);
    ClockwiseInjective(keys, pos);
    ChoiceFromGrownSet(keys, Clockwise(pos), k, n + n);
    AtMostOneSize(w - w');
    assert Injective(w, Ascending());
    ChoiceFromChoices(w, w', Ascending(), k, n);
    AtMostOneSize(AnswerKeys(keys, pos, n) - AnswerKeys(keys + {k}, pos, n));
  }
}
