/** What the keys that removal leaves behind do to later answers of a hashring
    (bridgedb/bridgerings.py): the KeyError while the bridge is away, and the double key when it
    returns. */
module Removals {
  import opened Common
  import opened BridgeData
  import opened Bisect
  import opened Nearest
  import opened Windows
  import opened Answers
  import opened Disruption
  import opened Hashring

  // ---------------------------------------------------------------- while the bridge is away

  function SubsRemoved(subs: seq<Contents>, k: nat): (r: seq<Contents>)
    ensures |r| == |subs|
  {
    seq(|subs|, i requires 0 <= i < |subs| => Removed(subs[i], k))
  }

  /** Whether a subring still contributes the key of a bridge that was taken out: its list is as long as
      before, its length is one less. */
  ghost predicate StillForced(bridges: map<nat, Bridge>, w: Want, k: nat, pos: nat)
    requires k in bridges
  {
    var held := Matching(bridges, w).Keys;
    Matches(w, bridges[k]) && k in First(held, Clockwise(pos), Min(w.count, |held - {k}|))
  }

  lemma RemovedSubKeys(c: Contents, w: Want, k: nat, pos: nat)
    requires Intact(c) && pos < DIGEST_SPACE
    ensures Elements(SubKeys(Removed(c, k), w, pos)) ==
      First(c.bridges.Keys, Clockwise(pos), Min(w.count, |c.bridges.Keys - {k}|))
  {
    hide First, Slice, Clockwise, Intact, Elements;
    var left := c.bridges - {k};
    assert left.Keys == c.bridges.Keys - {k} && |left| == |left.Keys|;
    SliceOfIntact(c, pos, Min(w.count, |left|));
  }

  lemma FinishFails(bridges: map<nat, Bridge>, keys: set<nat>, n: nat, filterBySubnet: bool)
    ensures Finish(bridges, keys, n, filterBySubnet).None? <==> !(keys <= bridges.Keys)
  {
  }

  lemma SubAfterRemoval(top: Contents, subs: seq<Contents>, wants: seq<Want>, k: nat, pos: nat, i: nat)
    requires Exact(top, subs, wants) && k in top.bridges && pos < DIGEST_SPACE && i < |subs|
    ensures
      var keys := SubKeys(SubsRemoved(subs, k)[i], wants[i], pos);
      && (forall x :: x in keys ==> x in top.bridges)
      && (k in keys <==> StillForced(top.bridges, wants[i], k, pos))
  {
    hide First, Clockwise, Intact, SubKeys;
    var held := Matching(top.bridges, wants[i]).Keys;
    var count := Min(wants[i].count, |held - {k}|);
    RemovedSubKeys(subs[i], wants[i], k, pos);
    FirstIsPart(held, Clockwise(pos), count);
    var keys := SubKeys(SubsRemoved(subs, k)[i], wants[i], pos);
    assert forall x :: x in keys <==> x in Elements(keys);
    assert held <= top.bridges.Keys;
  }

  lemma MainAfterRemoval(top: Contents, k: nat, pos: nat, n: nat)
    requires Intact(top) && pos < DIGEST_SPACE
    ensures Elements(Slice(Sort(Removed(top, k).keys), pos, n + n)) == Window(top.bridges.Keys, pos, n)
    ensures Window(top.bridges.Keys, pos, n) <= top.bridges.Keys
  {
    hide First, Slice, Clockwise, Intact, Sort, Elements;
    SliceOfIntact(top, pos, n + n);
    FirstIsPart(top.bridges.Keys, Clockwise(pos), n + n);
  }

  /** After a held bridge was taken out of a ring, exactly those clients get a KeyError whose window held
      its key or to whom a subring still contributes it. */
  lemma RemovedKeyFails(top: Contents, subs: seq<Contents>, wants: seq<Want>, k: nat, pos: nat, n: nat,
                        filterBySubnet: bool)
    requires Exact(top, subs, wants) && k in top.bridges && pos < DIGEST_SPACE
    ensures
      var left, leftSubs := Removed(top, k), SubsRemoved(subs, k);
      Finish(left.bridges, ChosenKeys(left, leftSubs, wants, pos, n), n, filterBySubnet).None? <==>
        k in Window(top.bridges.Keys, pos, n) ||
        exists i :: 0 <= i < |wants| && StillForced(top.bridges, wants[i], k, pos)
  {
    hide First, Slice, Intact, Finish, Window, StillForced, SubKeys, Elements, Matching;
    var left, leftSubs := Removed(top, k), SubsRemoved(subs, k);
    MainAfterRemoval(top, k, pos, n);
    forall i | 0 <= i < |subs|
      ensures forall x :: x in SubKeys(leftSubs[i], wants[i], pos) ==> x in top.bridges
      ensures k in SubKeys(leftSubs[i], wants[i], pos) <==> StillForced(top.bridges, wants[i], k, pos)
    {
      SubAfterRemoval(top, subs, wants, k, pos, i);
    }
    FinishFails(left.bridges, ChosenKeys(left, leftSubs, wants, pos, n), n, filterBySubnet);
  }

  /** The shortest such run: a ring that gets a bridge, loses it and is asked. */
  lemma InsertRemoveAskFails(k: Digest, b: Bridge, pos: nat, n: nat, filterBySubnet: bool)
    requires pos < DIGEST_SPACE && n > 0
    ensures
      var left := Removed(Inserted(EMPTY, k, b), k);
      Finish(left.bridges, ChosenKeys(left, [], [], pos, n), n, filterBySubnet) == None
  {
    var held := Inserted(EMPTY, k, b);
    assert held.keys == [k] && held.bridges == map[k := b];
    assert Elements(held.keys) == {k} == held.bridges.Keys;
    assert |held.bridges.Keys| == 1;
    FirstOfFew(held.bridges.Keys, Clockwise(pos), n + n);
    assert SubsRemoved([], k) == [];
    RemovedKeyFails(held, [], [], k, pos, n, filterBySubnet);
  }

  // ---------------------------------------------------------------- when the bridge returns

  /** The first n places clockwise when one key stands in the list twice: a key fewer when both places
      are among them. */
  ghost function NearestTwice(s: set<nat>, pos: nat, k: nat, n: nat): set<nat>
  {
    First(s, Clockwise(pos), if Rank(s, Clockwise(pos), k) + 1 < n <= |s| then n - 1 else n)
  }

  /** A list in which the key at place j stands twice. */
  function Doubled(s: seq<nat>, j: nat): seq<nat>
    requires j < |s|
  {
    s[..j + 1] + [s[j]] + s[j + 1..]
  }

  lemma DoubledSorted(s: seq<nat>, j: nat)
    requires Sorted(s) && j < |s|
    ensures Sorted(Doubled(s, j)) && multiset(Doubled(s, j)) == multiset(s) + multiset{s[j]}
  {
    assert s == s[..j + 1] + s[j + 1..];
  }

  /** The first places of a doubled list. */
  lemma PrefixOfDoubled(r: seq<nat>, p: nat, m: nat)
    requires p < |r| && m <= |r| + 1
    ensures Elements(Doubled(r, p)[..m]) == Elements(r[..if p + 1 < m then m - 1 else m])
  {
    var d := Doubled(r, p);
    if p + 1 < m {
      assert d[..m] == r[..p + 1] + [r[p]] + r[p + 1..m - 1];
      assert r[..m - 1] == r[..p + 1] + r[p + 1..m - 1];
      assert r[p] == r[..p + 1][p];
    } else {
      assert d[..m] == r[..m];
    }
  }

  lemma DoubledInFirst(a: seq<nat>, b: seq<nat>, p: nat)
    requires p < |a|
    ensures Doubled(a + b, p) == Doubled(a, p) + b
  {
    assert (a + b)[..p + 1] == a[..p + 1] && (a + b)[p + 1..] == a[p + 1..] + b;
  }

  lemma DoubledInSecond(a: seq<nat>, b: seq<nat>, q: nat)
    requires q < |b|
    ensures Doubled(a + b, |a| + q) == a + Doubled(b, q)
  {
    assert (a + b)[..|a| + q + 1] == a + b[..q + 1] && (a + b)[|a| + q + 1..] == b[q + 1..];
  }

  lemma BisectLeftIs(s: seq<nat>, x: nat, i: nat)
    requires Sorted(s) && i <= |s|
    requires (forall j :: 0 <= j < i ==> s[j] < x) && (forall j :: i <= j < |s| ==> x <= s[j])
    ensures BisectLeft(s, x) == i
  {
    hide Sorted;
    var b := BisectLeft(s, x);
    if b < |s| {
      assert x <= s[b];
    }
    if i < |s| {
      assert x <= s[i];
    }
  }

  lemma BisectOfDoubled(s: seq<nat>, j: nat, pos: nat)
    requires Sorted(s) && j < |s|
    ensures Sorted(Doubled(s, j))
    ensures BisectLeft(Doubled(s, j), pos) == BisectLeft(s, pos) + if BisectLeft(s, pos) <= j then 0 else 1
  {
    DoubledSorted(s, j);
    hide Sorted;
    var d, i := Doubled(s, j), BisectLeft(s, pos) + if BisectLeft(s, pos) <= j then 0 else 1;
    assert forall x :: 0 <= x < |d| ==> d[x] == if x <= j then s[x] else s[x - 1];
    BisectLeftIs(d, pos, i);
  }

  /** Reading a doubled list around the ring gives the doubled reading of the list. */
  lemma RotationOfDoubled(s: seq<nat>, j: nat, pos: nat) returns (p: nat)
    requires Sorted(s) && j < |s|
    ensures Sorted(Doubled(s, j))
    ensures p < |s| && Rotated(s, pos)[p] == s[j]
    ensures Rotated(Doubled(s, j), pos) == Doubled(Rotated(s, pos), p)
  {
    hide Sorted, Doubled, BisectLeft;
    BisectOfDoubled(s, j, pos);
    var idx := BisectLeft(s, pos);
    if idx <= j {
      p := j - idx;
      TurnBefore(s, idx, j);
    } else {
      p := |s| - idx + j;
      TurnAfter(s, idx, j);
    }
  }

  lemma TurnBefore(s: seq<nat>, idx: nat, j: nat)
    requires idx <= j < |s|
    ensures
      var d, r := Doubled(s, j), s[idx..] + s[..idx];
      idx <= |d| && r[j - idx] == s[j] && d[idx..] + d[..idx] == Doubled(r, j - idx)
  {
    hide Doubled;
    assert s == s[..idx] + s[idx..];
    RotateSecond(s[..idx], s[idx..], j - idx);
  }

  lemma TurnAfter(s: seq<nat>, idx: nat, j: nat)
    requires j < idx <= |s|
    ensures
      var d, r, p := Doubled(s, j), s[idx..] + s[..idx], |s| - idx + j;
      idx + 1 <= |d| && r[p] == s[j] && d[idx + 1..] + d[..idx + 1] == Doubled(r, p)
  {
    hide Doubled;
    assert s == s[..idx] + s[idx..];
    RotateFirst(s[..idx], s[idx..], j);
  }

  lemma RotateSecond(a: seq<nat>, b: seq<nat>, q: nat)
    requires q < |b|
    ensures
      var d := Doubled(a + b, |a| + q);
      |a| <= |d| && d[|a|..] + d[..|a|] == Doubled(b + a, q)
  {
    hide Doubled;
    DoubledInSecond(a, b, q);
    DoubledInFirst(b, a, q);
  }

  lemma RotateFirst(a: seq<nat>, b: seq<nat>, p: nat)
    requires p < |a|
    ensures
      var d := Doubled(a + b, p);
      |a| + 1 <= |d| && d[|a| + 1..] + d[..|a| + 1] == Doubled(b + a, |b| + p)
  {
    hide Doubled;
    DoubledInFirst(a, b, p);
    DoubledInSecond(b, a, p);
    DoubledLength(a, p);
  }

  lemma DoubledLength(s: seq<nat>, j: nat)
    requires j < |s|
    ensures |Doubled(s, j)| == |s| + 1
  {
  }

  /** What a list with one key twice gives clockwise from a position. */
  lemma SliceOfDoubled(s: seq<nat>, j: nat, pos: nat, n: nat)
    requires Increasing(s, Ascending()) && InSpace(Elements(s)) && pos < DIGEST_SPACE && j < |s|
    ensures Sorted(Doubled(s, j))
    ensures Elements(Slice(Doubled(s, j), pos, n)) == NearestTwice(Elements(s), pos, s[j], n)
  {
    hide First, Clockwise, Rank, BisectLeft, Slice, Elements, Doubled, Increasing, InSpace;
    RotationIncreases(s, pos);
    IncreasingIsDistinct(s);
    DoubledSorted(s, j);
    DoubledLength(s, j);
    DistinctSize(s);
    var d := Doubled(s, j);
    if n >= |d| {
      DoubledElements(s, j);
      FirstOfFew(Elements(s), Clockwise(pos), n);
      SliceOfFew(d, pos, n);
    } else {
      var r := Rotated(s, pos);
      var p := RotationOfDoubled(s, j, pos);
      RotatedElements(s, pos);
      IndexIsRank(r, Clockwise(pos), p);
      SliceIsRotation(d, pos, n);
      PrefixOfDoubled(r, p, n);
      PrefixIsFirst(r, Clockwise(pos), if p + 1 < n then n - 1 else n);
    }
  }

  lemma IncreasingIsDistinct(s: seq<nat>)
    requires Increasing(s, Ascending())
    ensures forall i, j :: 0 <= i < j < |s| ==> s[i] != s[j]
  {
  }

  lemma DoubledElements(s: seq<nat>, j: nat)
    requires j < |s|
    ensures Elements(Doubled(s, j)) == Elements(s)
  {
    assert s == s[..j + 1] + s[j + 1..];
  }

  /** Appending a key that is already there doubles its place in the sorted list. */
  lemma SortOfReturned(keys: seq<nat>, k: nat) returns (j: nat)
    requires k in Sort(keys)
    ensures j < |Sort(keys)| && Sort(keys)[j] == k
    ensures Sort(keys + [k]) == Doubled(Sort(keys), j)
  {
    var s := Sort(keys);
    j :| 0 <= j < |s| && s[j] == k;
    DoubledSorted(s, j);
    assert multiset(keys + [k]) == multiset(keys) + multiset{k};
    SortedUnique(Sort(keys + [k]), Doubled(s, j));
  }

  /** What the list of a ring gives when one of its keys was appended again. */
  lemma SliceOfReturned(c: Contents, k: nat, pos: nat, n: nat)
    requires Intact(c) && k in c.bridges && pos < DIGEST_SPACE
    ensures Elements(Slice(Sort(c.keys + [k]), pos, n)) == NearestTwice(c.bridges.Keys, pos, k, n)
  {
    hide Slice, NearestTwice, Doubled;
    var s := Sort(c.keys);
    SortOfDistinct(c.keys);
    SortKeepsElements(c.keys);
    assert k in Elements(c.keys) && k in Elements(s);
    hide Sort, Elements, Increasing, Distinct;
    InElements(s, k);
    var j := SortOfReturned(c.keys, k);
    SliceOfDoubled(s, j, pos, n);
  }

  lemma InElements(s: seq<nat>, k: nat)
    ensures k in Elements(s) <==> k in s
  {
  }

  /** A bridge that was taken out comes back into the same subrings. */
  ghost predicate SameSubrings(wants: seq<Want>, a: Bridge, b: Bridge)
  {
    forall i :: 0 <= i < |wants| ==> (Matches(wants[i], a) <==> Matches(wants[i], b))
  }

  function Returned(c: Contents, k: nat, b: Bridge): Contents { Inserted(Removed(c, k), k, b) }

  function SubsReturned(subs: seq<Contents>, wants: seq<Want>, k: nat, b: Bridge): (r: seq<Contents>)
    requires |subs| == |wants|
    ensures |r| == |subs|
  {
    SubsInserted(SubsRemoved(subs, k), wants, k, b)
  }

  /** The keys that a subring contributes after the return. */
  ghost function ForcedTwice(bridges: map<nat, Bridge>, w: Want, k: nat, pos: nat): set<nat>
    requires k in bridges
  {
    var held := Matching(bridges, w).Keys;
    if Matches(w, bridges[k]) then NearestTwice(held, pos, k, Min(w.count, |held|)) else ForcedKeys(bridges, w, pos)
  }

  /** The keys that an answer is chosen from after the return. */
  ghost function ReturnedKeys(bridges: map<nat, Bridge>, wants: seq<Want>, k: nat, pos: nat, n: nat): set<nat>
    requires k in bridges
  {
    (set i, x | 0 <= i < |wants| && x in ForcedTwice(bridges, wants[i], k, pos) :: x) +
    NearestTwice(bridges.Keys, pos, k, n + n)
  }

  lemma SubAfterReturn(top: Contents, subs: seq<Contents>, wants: seq<Want>, k: nat, b: Bridge, pos: nat, i: nat)
    requires Exact(top, subs, wants) && k in top.bridges && pos < DIGEST_SPACE && i < |subs|
    requires SameSubrings(wants, top.bridges[k], b)
    ensures
      var returned := SubsReturned(subs, wants, k, b)[i];
      forall x :: x in SubKeys(returned, wants[i], pos) <==> x in ForcedTwice(top.bridges[k := b], wants[i], k, pos)
  {
    hide NearestTwice, Clockwise, First, Intact, Sort, Slice, Elements;
    var c, w, returned := subs[i], wants[i], SubsReturned(subs, wants, k, b)[i];
    var bridges := top.bridges[k := b];
    MatchingAfterReturn(top.bridges, w, k, b);
    if Matches(w, b) {
      assert returned.keys == c.keys + [k] && returned.bridges.Keys == c.bridges.Keys;
      assert |returned.bridges| == |c.bridges.Keys|;
      SliceOfReturned(c, k, pos, Min(w.count, |c.bridges.Keys|));
    } else {
      assert k !in c.bridges && c.bridges - {k} == c.bridges && returned == c;
      SubKeysOfIntact(c, w, pos);
    }
    forall x
      ensures x in SubKeys(returned, w, pos) <==> x in Elements(SubKeys(returned, w, pos))
    {
      InElements(SubKeys(returned, w, pos), x);
    }
  }

  lemma MatchingAfterReturn(bridges: map<nat, Bridge>, w: Want, k: nat, b: Bridge)
    requires k in bridges && (Matches(w, bridges[k]) <==> Matches(w, b))
    ensures Matching(bridges[k := b], w).Keys == Matching(bridges, w).Keys
    ensures k in Matching(bridges, w) <==> Matches(w, b)
  {
  }

  /** After a removal and a return into the same subrings the keys are those of a fresh ring, except that
      each list in which both places of the double key are read gives one key less. */
  lemma ReturnedChooses(top: Contents, subs: seq<Contents>, wants: seq<Want>, k: nat, b: Bridge, pos: nat, n: nat)
    requires Exact(top, subs, wants) && k in top.bridges && pos < DIGEST_SPACE
    requires SameSubrings(wants, top.bridges[k], b)
    ensures Returned(top, k, b).bridges == top.bridges[k := b]
    ensures ChosenKeys(Returned(top, k, b), SubsReturned(subs, wants, k, b), wants, pos, n) ==
      ReturnedKeys(top.bridges[k := b], wants, k, pos, n)
  {
    hide NearestTwice, Slice, Sort, Intact, Elements, ForcedTwice, SubKeys, SameSubrings, Matching;
    var bridges, returned := top.bridges[k := b], SubsReturned(subs, wants, k, b);
    assert (top.bridges - {k})[k := b] == bridges && bridges.Keys == top.bridges.Keys;
    SliceOfReturned(top, k, pos, n + n);
    forall i | 0 <= i < |subs|
      ensures forall x :: x in SubKeys(returned[i], wants[i], pos) <==> x in ForcedTwice(bridges, wants[i], k, pos)
    {
      SubAfterReturn(top, subs, wants, k, b, pos, i);
    }
    AllForcedTwice(bridges, returned, wants, k, pos);
  }

  lemma AllForcedTwice(bridges: map<nat, Bridge>, subs: seq<Contents>, wants: seq<Want>, k: nat, pos: nat)
    requires k in bridges && |subs| == |wants|
    requires forall i :: 0 <= i < |subs| ==> forall x ::
      x in SubKeys(subs[i], wants[i], pos) <==> x in ForcedTwice(bridges, wants[i], k, pos)
    ensures AllSubKeys(subs, wants, pos) ==
      set i, x | 0 <= i < |wants| && x in ForcedTwice(bridges, wants[i], k, pos) :: x
  {
    hide SubKeys, ForcedTwice;
  }

  lemma NearestTwiceIsPart(s: set<nat>, pos: nat, k: nat, n: nat)
    ensures NearestTwice(s, pos, k, n) <= s
    ensures k in s && k !in First(s, Clockwise(pos), n) ==> NearestTwice(s, pos, k, n) == First(s, Clockwise(pos), n)
  {
    hide Clockwise, Rank;
  }

  lemma ForcedTwiceIsPart(bridges: map<nat, Bridge>, w: Want, k: nat, pos: nat)
    requires k in bridges
    ensures ForcedTwice(bridges, w, k, pos) <= bridges.Keys
    ensures k !in ForcedKeys(bridges, w, pos) ==> ForcedTwice(bridges, w, k, pos) == ForcedKeys(bridges, w, pos)
  {
    hide First, Clockwise, NearestTwice;
    var held := Matching(bridges, w).Keys;
    NearestTwiceIsPart(held, pos, k, Min(w.count, |held|));
    FirstOfMin(held, Clockwise(pos), w.count);
    FirstIsPart(held, Clockwise(pos), w.count);
    assert held <= bridges.Keys;
    assert Matches(w, bridges[k]) ==> k in held;
  }

  lemma ReturnedAreKeys(bridges: map<nat, Bridge>, wants: seq<Want>, k: nat, pos: nat, n: nat)
    requires k in bridges
    ensures ReturnedKeys(bridges, wants, k, pos, n) <= bridges.Keys
    ensures k !in Candidates(bridges, wants, pos, n) ==>
      ReturnedKeys(bridges, wants, k, pos, n) == Candidates(bridges, wants, pos, n)
  {
    hide First, Clockwise, NearestTwice, ForcedTwice, ForcedKeys;
    NearestTwiceIsPart(bridges.Keys, pos, k, n + n);
    forall i | 0 <= i < |wants|
      ensures ForcedTwice(bridges, wants[i], k, pos) <= bridges.Keys
      ensures k !in ForcedKeys(bridges, wants[i], pos) ==>
        ForcedTwice(bridges, wants[i], k, pos) == ForcedKeys(bridges, wants[i], pos)
    {
      ForcedTwiceIsPart(bridges, wants[i], k, pos);
    }
  }

  /** Different keys hold different bridges, as each is the place of a fingerprint. */
  ghost predicate OneEach(bridges: map<nat, Bridge>)
  {
    forall x, y :: x in bridges && y in bridges && bridges[x] == bridges[y] ==> x == y
  }

  lemma SameBridgesSameKeys(bridges: map<nat, Bridge>, r: seq<nat>, s: seq<nat>)
    requires OneEach(bridges) && (forall k :: k in r ==> k in bridges) && (forall k :: k in s ==> k in bridges)
    requires BridgesAt(bridges, r) == BridgesAt(bridges, s)
    ensures r == s
  {
    assert |r| == |BridgesAt(bridges, r)| == |BridgesAt(bridges, s)| == |s|;
    forall i | 0 <= i < |r|
      ensures r[i] == s[i]
    {
      assert BridgesAt(bridges, r)[i] == BridgesAt(bridges, s)[i];
    }
  }

  lemma SameAnswerSameSelection(bridges: map<nat, Bridge>, a: set<nat>, b: set<nat>, n: nat, filterBySubnet: bool)
    requires OneEach(bridges) && a <= bridges.Keys && b <= bridges.Keys
    ensures Finish(bridges, a, n, filterBySubnet) == Finish(bridges, b, n, filterBySubnet) <==>
      Selected(bridges, a, n, filterBySubnet) == Selected(bridges, b, n, filterBySubnet)
  {
    hide Finish, Selected, OneEach, BridgesAt;
    FinishIsSelected(bridges, a, n, filterBySubnet);
    FinishIsSelected(bridges, b, n, filterBySubnet);
    var r, s := SortedSeq(Selected(bridges, a, n, filterBySubnet)), SortedSeq(Selected(bridges, b, n, filterBySubnet));
    if BridgesAt(bridges, r) == BridgesAt(bridges, s) {
      SameBridgesSameKeys(bridges, r, s);
      assert Elements(r) == Elements(s);
    }
  }

  /** After a removal and a return into the same subrings a client gets the answer of a fresh ring if and
      only if the same keys are selected among the keys that are read and among those of a fresh ring; so
      it is for all clients who do not see the bridge among these. */
  lemma FreshAfterReturnIff(top: Contents, subs: seq<Contents>, wants: seq<Want>, k: nat, b: Bridge, pos: nat,
                            n: nat, filterBySubnet: bool)
    requires Exact(top, subs, wants) && k in top.bridges && pos < DIGEST_SPACE
    requires SameSubrings(wants, top.bridges[k], b) && OneEach(top.bridges[k := b])
    ensures
      var bridges := top.bridges[k := b];
      var chosen := ChosenKeys(Returned(top, k, b), SubsReturned(subs, wants, k, b), wants, pos, n);
      var fresh' := Candidates(bridges, wants, pos, n);
      && (Finish(bridges, chosen, n, filterBySubnet) == Answer(bridges, wants, pos, n, filterBySubnet) <==>
            Selected(bridges, ReturnedKeys(bridges, wants, k, pos, n), n, filterBySubnet) ==
            Selected(bridges, fresh', n, filterBySubnet))
      && (k !in fresh' ==>
            Finish(bridges, chosen, n, filterBySubnet) == Answer(bridges, wants, pos, n, filterBySubnet))
  {
    hide Exact, ChosenKeys, ReturnedKeys, Candidates, Selected, Finish, SameSubrings, OneEach;
    var bridges := top.bridges[k := b];
    ReturnedChooses(top, subs, wants, k, b, pos, n);
    ReturnedAreKeys(bridges, wants, k, pos, n);
    CandidatesAreKeys(bridges, wants, pos, n);
    SameAnswerSameSelection(bridges, ReturnedKeys(bridges, wants, k, pos, n), Candidates(bridges, wants, pos, n), n,
                            filterBySubnet);
  }
}
