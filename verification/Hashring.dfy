/** The consistent hashring of bridgedb/bridgerings.py: a lazily sorted list of keys, and subrings
    for bridges that answers are forced to contain. */
module Hashring {
  import opened Common
  import opened Storage
  import opened BridgeData
  import opened Bisect
  import opened Nearest
  import opened Windows
  import opened Subnets
  import opened Answers

  // ---------------------------------------------------------------- what a ring holds

  type Digest = k: nat | k < DIGEST_SPACE

  /** The fields of one ring. */
  datatype Contents = Contents(bridges: map<nat, Bridge>, byID: map<Fingerprint, Bridge>,
                               keys: seq<nat>, isSorted: bool)

  const EMPTY := Contents(map[], map[], [], false)

  /** What every operation keeps: each bridge has its key in the list, the list holds digests, and
      the flag does not lie. */
  ghost predicate Keeps(c: Contents)
  {
    && c.bridges.Keys <= Elements(c.keys)
    && InSpace(Elements(c.keys))
    && (c.isSorted ==> Sorted(c.keys))
  }

  /** What all operations but remove keep: each bridge has its key in the list once, and there are
      no other keys. */
  ghost predicate Intact(c: Contents)
  {
    Keeps(c) && Distinct(c.keys) && Elements(c.keys) == c.bridges.Keys
  }

  function Inserted(c: Contents, k: nat, b: Bridge): Contents
  {
    Contents(c.bridges[k := b], c.byID[b.fingerprint := b],
             if k in c.bridges then c.keys else c.keys + [k], c.isSorted && k in c.bridges)
  }

  function Removed(c: Contents, k: nat): Contents { c.(bridges := c.bridges - {k}) }

  /** Sorting when needed is all that reading may change. */
  ghost predicate Settled(c: Contents, d: Contents)
  {
    d == c || d == c.(keys := Sort(c.keys), isSorted := true)
  }

  lemma {:induction false} AppendedElements(keys: seq<nat>, k: nat)
    ensures Elements(keys + [k]) == Elements(keys) + {k}
    ensures Distinct(keys + [k]) <==> Distinct(keys) && k !in Elements(keys)
  {
    var longer := keys + [k];
    if Distinct(longer) {
      assert forall i :: 0 <= i < |keys| ==> longer[i] == keys[i] && longer[i] != longer[|keys|];
    }
  }

  lemma InsertedKeeps(c: Contents, k: Digest, b: Bridge)
    requires Keeps(c)
    ensures Keeps(Inserted(c, k, b))
    ensures Intact(c) ==> Intact(Inserted(c, k, b))
  {
    hide Elements, Distinct;
    AppendedElements(c.keys, k);
  }

  /** A ring after insertions of bridges at their places. */
  function InsertedAll(run: seq<(Digest, Bridge)>): Contents
  {
    if run == [] then EMPTY
    else
      var (k, b) := run[|run| - 1];
      Inserted(InsertedAll(run[..|run| - 1]), k, b)
  }

  /** The last version of a bridge in a run. */
  function LastVersion(run: seq<(Digest, Bridge)>, f: Fingerprint): Option<(Digest, Bridge)>
  {
    if run == [] then None
    else if run[|run| - 1].1.fingerprint == f then Some(run[|run| - 1])
    else LastVersion(run[..|run| - 1], f)
  }

  /** After insertions each bridge is found by its identity and at its place, in its last version; other
      identities are not. */
  lemma {:induction false} LatestIsHeld(run: seq<(Digest, Bridge)>, f: Fingerprint)
    requires forall i, j :: 0 <= i < |run| && 0 <= j < |run| ==>
      (run[i].0 == run[j].0 <==> run[i].1.fingerprint == run[j].1.fingerprint)
    ensures
      var c, last := InsertedAll(run), LastVersion(run, f);
      && (f in c.byID <==> last.Some?)
      && (last.Some? ==>
            && (exists i :: 0 <= i < |run| && run[i] == last.value)
            && c.byID[f] == last.value.1 && last.value.1.fingerprint == f
            && last.value.0 in c.bridges && c.bridges[last.value.0] == last.value.1)
    decreases |run|
  {
    if run != [] {
      var n := |run| - 1;
      var before := run[..n];
      LatestIsHeld(before, f);
      if run[n].1.fingerprint != f && LastVersion(before, f).Some? {
        var i :| 0 <= i < n && before[i] == LastVersion(before, f).value;
        assert run[i] == before[i];
      }
    }
  }

  /** Taking a held bridge out leaves its key and its identity behind. */
  lemma RemovedKeeps(c: Contents, k: nat)
    requires Keeps(c)
    ensures Keeps(Removed(c, k)) && Removed(c, k).keys == c.keys && Removed(c, k).byID == c.byID
    ensures k !in Removed(c, k).bridges
    ensures Intact(c) ==> (Intact(Removed(c, k)) <==> k !in c.bridges)
  {
    assert k !in c.bridges ==> c.bridges - {k} == c.bridges;
  }

  lemma SettledKeeps(c: Contents, d: Contents)
    requires Keeps(c) && Settled(c, d)
    ensures Keeps(d) && Elements(d.keys) == Elements(c.keys) && Sort(d.keys) == Sort(c.keys)
    ensures d.bridges == c.bridges && d.byID == c.byID
    ensures Intact(c) ==> Intact(d)
  {
    SortKeepsElements(c.keys);
    SortOfSorted(c.keys);
    if Distinct(c.keys) {
      SortOfDistinct(c.keys);
    }
  }

  lemma SettledRefl(c: Contents)
    ensures Settled(c, c)
  {
  }

  // ---------------------------------------------------------------- rings with subrings

  /** A ring whose list and whose subrings hold exactly what belongs in them. */
  ghost predicate Exact(top: Contents, subs: seq<Contents>, wants: seq<Want>)
  {
    && |subs| == |wants| && Intact(top)
    && (forall i :: 0 <= i < |subs| ==>
          Intact(subs[i]) && subs[i].bridges == Matching(top.bridges, wants[i]))
  }

  /** An empty ring with empty subrings is exact. */
  lemma EmptyIsExact(subs: seq<Contents>, wants: seq<Want>)
    requires |subs| == |wants| && forall i :: 0 <= i < |subs| ==> subs[i] == EMPTY
    ensures Keeps(EMPTY) && Exact(EMPTY, subs, wants)
  {
    assert forall i :: 0 <= i < |wants| ==> Matching(map[], wants[i]) == map[];
  }

  /** What insert does to a subring. */
  function SubInserted(c: Contents, w: Want, k: nat, b: Bridge): Contents
  {
    if Matches(w, b) then Inserted(c, k, b) else c
  }

  function SubsInserted(subs: seq<Contents>, wants: seq<Want>, k: nat, b: Bridge): (r: seq<Contents>)
    requires |subs| == |wants|
    ensures |r| == |subs|
  {
    seq(|subs|, i requires 0 <= i < |subs| => SubInserted(subs[i], wants[i], k, b))
  }

  /** A bridge that comes back to its place stays in every subring that it was in. */
  ghost predicate Steady(bridges: map<nat, Bridge>, wants: seq<Want>, k: nat, b: Bridge)
  {
    k in bridges ==>
      forall i :: 0 <= i < |wants| && Matches(wants[i], bridges[k]) ==> Matches(wants[i], b)
  }

  lemma SubringStaysExact(bridges: map<nat, Bridge>, w: Want, k: nat, b: Bridge)
    ensures (if Matches(w, b) then Matching(bridges, w)[k := b] else Matching(bridges, w))
              == Matching(bridges[k := b], w)
      <==> (k in bridges && Matches(w, bridges[k]) ==> Matches(w, b))
  {
    var before, after := Matching(bridges, w), Matching(bridges[k := b], w);
    if Matches(w, b) {
      assert before[k := b] == after;
    } else if k in bridges && Matches(w, bridges[k]) {
      assert k in before && k !in after;
    } else {
      assert before == after;
    }
  }

  /** Insertion keeps a ring exact unless a bridge comes back without a property that put it into a
      subring: the subring keeps the old version. */
  lemma InsertKeepsExact(top: Contents, subs: seq<Contents>, wants: seq<Want>, k: Digest, b: Bridge)
    requires Exact(top, subs, wants)
    ensures Exact(Inserted(top, k, b), SubsInserted(subs, wants, k, b), wants)
      <==> Steady(top.bridges, wants, k, b)
  {
    hide Intact, Matching;
    InsertedIntact(top, k, b);
    var subs' := SubsInserted(subs, wants, k, b);
    forall i | 0 <= i < |subs|
      ensures Intact(subs'[i])
      ensures subs'[i].bridges == Matching(top.bridges[k := b], wants[i]) <==>
        (k in top.bridges && Matches(wants[i], top.bridges[k]) ==> Matches(wants[i], b))
    {
      InsertedIntact(subs[i], k, b);
      SubringStaysExact(top.bridges, wants[i], k, b);
    }
  }

  lemma InsertedIntact(c: Contents, k: Digest, b: Bridge)
    requires Intact(c)
    ensures Intact(Inserted(c, k, b))
  {
    InsertedKeeps(c, k, b);
  }

  lemma AllInsertedKeep(top: Contents, subs: seq<Contents>, wants: seq<Want>, k: Digest, b: Bridge)
    requires |subs| == |wants| && Keeps(top) && forall i :: 0 <= i < |subs| ==> Keeps(subs[i])
    ensures Keeps(Inserted(top, k, b))
    ensures forall i :: 0 <= i < |subs| ==> Keeps(SubInserted(subs[i], wants[i], k, b))
  {
    hide Keeps, Inserted;
    InsertedKeeps(top, k, b);
    forall i | 0 <= i < |subs|
      ensures Keeps(SubInserted(subs[i], wants[i], k, b))
    {
      InsertedKeeps(subs[i], k, b);
    }
  }

  /** Removal keeps a ring exact only when there is nothing to remove. */
  lemma RemoveKeepsExact(top: Contents, subs: seq<Contents>, wants: seq<Want>, k: nat,
                         top': Contents, subs': seq<Contents>)
    requires |subs| == |wants| && Keeps(top) && forall i :: 0 <= i < |subs| ==> Keeps(subs[i])
    requires top' == Removed(top, k) && |subs'| == |subs|
    requires forall i :: 0 <= i < |subs| ==> subs'[i] == Removed(subs[i], k)
    ensures Keeps(top') && forall i :: 0 <= i < |subs| ==> Keeps(subs'[i])
    ensures Exact(top, subs, wants) ==> (Exact(top', subs', wants) <==> k !in top.bridges)
  {
    hide Keeps, Intact;
    RemovedKeeps(top, k);
    forall i | 0 <= i < |subs|
      ensures Keeps(subs'[i])
      ensures Exact(top, subs, wants) && k !in top.bridges ==> subs'[i] == subs[i]
    {
      RemovedKeeps(subs[i], k);
      assert k !in subs[i].bridges ==> subs[i].bridges - {k} == subs[i].bridges;
    }
    assert k !in top.bridges ==> top.bridges - {k} == top.bridges;
  }

  // ---------------------------------------------------------------- reading

  /** The keys that a subring contributes: its length limits the count, its list gives the keys. */
  function SubKeys(c: Contents, w: Want, pos: nat): seq<nat>
  {
    Slice(Sort(c.keys), pos, Min(w.count, |c.bridges|))
  }

  ghost function AllSubKeys(subs: seq<Contents>, wants: seq<Want>, pos: nat): set<nat>
    requires |subs| == |wants|
  {
    set i, k | 0 <= i < |subs| && k in SubKeys(subs[i], wants[i], pos) :: k
  }

  /** All keys that an answer is chosen from. */
  ghost function ChosenKeys(top: Contents, subs: seq<Contents>, wants: seq<Want>, pos: nat, n: nat): set<nat>
    requires |subs| == |wants|
  {
    AllSubKeys(subs, wants, pos) + Elements(Slice(Sort(top.keys), pos, n + n))
  }

  lemma SliceOfIntact(c: Contents, pos: nat, n: nat)
    requires Intact(c) && pos < DIGEST_SPACE
    ensures Elements(Slice(Sort(c.keys), pos, n)) == First(c.bridges.Keys, Clockwise(pos), n)
  {
    hide First, Slice, Clockwise, Increasing;
    SortOfDistinct(c.keys);
    SortKeepsElements(c.keys);
    SliceIsNearest(Sort(c.keys), pos, n);
  }

  lemma SubKeysOfIntact(c: Contents, w: Want, pos: nat)
    requires Intact(c) && pos < DIGEST_SPACE
    ensures Elements(SubKeys(c, w, pos)) == First(c.bridges.Keys, Clockwise(pos), w.count)
  {
    hide First, Slice, Clockwise, Intact;
    assert |c.bridges| == |c.bridges.Keys|;
    SliceOfIntact(c, pos, Min(w.count, |c.bridges|));
    FirstOfMin(c.bridges.Keys, Clockwise(pos), w.count);
  }

  lemma SubKeysAreForced(top: Contents, subs: seq<Contents>, wants: seq<Want>, pos: nat, i: nat)
    requires Exact(top, subs, wants) && pos < DIGEST_SPACE && i < |subs|
    ensures forall k :: k in SubKeys(subs[i], wants[i], pos) <==> k in ForcedKeys(top.bridges, wants[i], pos)
  {
    hide First, Slice, Clockwise, Intact, SubKeys, Matching;
    SubKeysOfIntact(subs[i], wants[i], pos);
    assert forall k :: k in SubKeys(subs[i], wants[i], pos) <==> k in Elements(SubKeys(subs[i], wants[i], pos));
  }

  /** In an exact ring the keys depend on nothing but the bridges. */
  lemma ChosenFromExact(top: Contents, subs: seq<Contents>, wants: seq<Want>, pos: nat, n: nat)
    requires Exact(top, subs, wants) && pos < DIGEST_SPACE
    ensures ChosenKeys(top, subs, wants, pos, n) == Candidates(top.bridges, wants, pos, n)
  {
    hide First, Slice, Clockwise, Intact, SubKeys, Matching, ForcedKeys, Sort;
    SliceOfIntact(top, pos, n + n);
    forall i | 0 <= i < |subs|
      ensures forall k :: k in SubKeys(subs[i], wants[i], pos) <==> k in ForcedKeys(top.bridges, wants[i], pos)
    {
      SubKeysAreForced(top, subs, wants, pos, i);
    }
    assert AllSubKeys(subs, wants, pos) == AllForcedKeys(top.bridges, wants, pos);
  }

  lemma AllSubKeysStep(subs: seq<Contents>, wants: seq<Want>, pos: nat, i: nat)
    requires |subs| == |wants| && i < |subs|
    ensures AllSubKeys(subs[..i + 1], wants[..i + 1], pos) ==
      AllSubKeys(subs[..i], wants[..i], pos) + Elements(SubKeys(subs[i], wants[i], pos))
  {
    hide SubKeys;
  }

  lemma ExtendGreedy(bridges: map<nat, Bridge>, keys: seq<nat>, i: nat)
    requires i < |keys| && forall k :: k in keys[..i + 1] ==> k in bridges
    ensures
      var before, bridge := BridgesAt(bridges, keys[..i]), bridges[keys[i]];
      var after := BridgesAt(bridges, keys[..i + 1]);
      && (bridge.address.None? ==> Greedy(after, {}) == Greedy(before, {}) && Networks(after) == Networks(before))
      && (bridge.address.Some? ==>
            && Networks(after) == Networks(before) + {NetworkOf(bridge.address.value)}
            && Greedy(after, {}) == Greedy(before, {}) +
                 if NetworkOf(bridge.address.value) in Networks(before) then [] else [bridge])
  {
    hide NetworkOf, Greedy;
    var before, bridge := BridgesAt(bridges, keys[..i]), bridges[keys[i]];
    assert BridgesAt(bridges, keys[..i + 1]) == before + [bridge];
    GreedyAppend(before, bridge, {});
    assert {} + Networks(before) == Networks(before);
    assert forall c :: c in before + [bridge] <==> c == bridge || c in before;
  }

  lemma ConcatElements(r: seq<nat>, s: seq<nat>)
    ensures Elements(r + s) == Elements(r) + Elements(s)
  {
  }

  /** Reading does not change what a ring answers. */
  lemma SettledKeepsAll(top: Contents, subs: seq<Contents>, wants: seq<Want>,
                        top': Contents, subs': seq<Contents>)
    requires |subs| == |wants| && |subs'| == |subs|
    requires Keeps(top) && Settled(top, top')
    requires forall i :: 0 <= i < |subs| ==> Keeps(subs[i]) && Settled(subs[i], subs'[i])
    ensures top'.bridges == top.bridges
    ensures Exact(top, subs, wants) ==> Exact(top', subs', wants)
  {
    hide Keeps, Settled, Intact;
    SettledKeeps(top, top');
    forall i | 0 <= i < |subs|
      ensures subs'[i].bridges == subs[i].bridges
      ensures Intact(subs[i]) ==> Intact(subs'[i])
    {
      SettledKeeps(subs[i], subs'[i]);
    }
  }

  // ---------------------------------------------------------------- the ring

  ghost function Snapshots(rings: seq<BridgeRing>): (r: seq<Contents>)
    reads rings
    ensures |r| == |rings| && forall i :: 0 <= i < |rings| ==> r[i] == rings[i].Here()
  {
    if rings == [] then [] else Snapshots(rings[..|rings| - 1]) + [rings[|rings| - 1].Here()]
  }

  lemma SliceOfFew(s: seq<nat>, pos: nat, n: nat)
    requires Sorted(s) && n >= |s|
    ensures Slice(s, pos, n) == s
  {
  }

  /** Bisecting the sorted keys and wrapping around. */
  method SliceFrom(keys: seq<nat>, pos: nat, n: nat) returns (r: seq<nat>)
    requires Sorted(keys) && n < |keys|
    ensures r == Slice(keys, pos, n)
  {
    var idx := BisectLeft(keys, pos);
    r := keys[idx..Min(idx + n, |keys|)];
    if |r| < n {
      r := r + keys[..n - |r|];
    }
  }

  /** Every key once, in the order of first appearance. */
  method WithoutDuplicates(all: seq<nat>) returns (keys: seq<nat>)
    ensures Distinct(keys) && Elements(keys) == Elements(all)
  {
    keys := [];
    for i := 0 to |all|
      invariant Distinct(keys) && Elements(keys) == Elements(all[..i])
    {
      assert all[..i + 1] == all[..i] + [all[i]];
      AppendedElements(all[..i], all[i]);
      if all[i] !in keys {
        AppendedElements(keys, all[i]);
        keys := keys + [all[i]];
      }
    }
    assert all[..|all|] == all;
  }

  lemma SortedWithoutDuplicates(keys: seq<nat>)
    requires Distinct(keys)
    ensures Sort(keys) == SortedSeq(Elements(keys))
  {
    SortOfDistinct(keys);
    SortKeepsElements(keys);
    SortedSeqUnique(Sort(keys));
  }

  /** The forced keys and those near the position, each once and sorted. */
  method Merge(forced: seq<nat>, near: seq<nat>) returns (keys: seq<nat>)
    ensures keys == SortedSeq(Elements(forced) + Elements(near))
  {
    hide Elements, SortedSeq;
    ConcatElements(forced, near);
    keys := WithoutDuplicates(forced + near);
    SortedWithoutDuplicates(keys);
    keys := Sort(keys);
  }

  class BridgeRing {
    const hmac: Fingerprint -> Digest
    const wants: seq<Want>
    const subrings: seq<BridgeRing>
    var bridges: map<nat, Bridge>
    var bridgesByID: map<Fingerprint, Bridge>
    var isSorted: bool
    var sortedKeys: seq<nat>

    ghost function Here(): Contents
      reads this
    {
      Contents(bridges, bridgesByID, sortedKeys, isSorted)
    }

    ghost function Subs(): (r: seq<Contents>)
      reads subrings
      ensures |r| == |subrings|
    {
      Snapshots(subrings)
    }

    ghost function Repr(): set<object> { {this} + set s: object | s in subrings }

    /** Subrings are different rings without subrings, under the same key. */
    ghost predicate Shape()
    {
      && |subrings| == |wants|
      && (forall i :: 0 <= i < |subrings| ==>
            subrings[i] != this && subrings[i].subrings == [] && subrings[i].wants == [] &&
            subrings[i].hmac == hmac)
      && (forall i, j :: 0 <= i < j < |subrings| ==> subrings[i] != subrings[j])
    }

    ghost predicate Valid()
      reads Repr()
    {
      && Shape() && Keeps(Here())
      && (forall i :: 0 <= i < |subrings| ==> Keeps(subrings[i].Here()))
    }

    ghost predicate IsExact()
      reads Repr()
    {
      Valid() && Exact(Here(), Subs(), wants)
    }

    constructor (hmac: Fingerprint -> Digest, wants: seq<Want>)
      ensures IsExact() && fresh(Repr())
      ensures this.hmac == hmac && this.wants == wants && Here() == EMPTY
      decreases |wants|, 1
    {
      hide Keeps, Exact;
      var rings := MakeSubrings(hmac, |wants|);
      this.hmac, this.wants, subrings := hmac, wants, rings;
      bridges, bridgesByID, isSorted, sortedKeys := map[], map[], false, [];
      new;
      EmptyIsExact(Subs(), wants);
    }

    /** Different empty rings without subrings, under one key. */
    static method MakeSubrings(hmac: Fingerprint -> Digest, n: nat) returns (rings: seq<BridgeRing>)
      ensures |rings| == n
      ensures forall j :: 0 <= j < n ==>
        fresh(rings[j]) && rings[j].subrings == [] && rings[j].wants == [] &&
        rings[j].hmac == hmac && rings[j].Here() == EMPTY
      ensures forall j, k :: 0 <= j < k < n ==> rings[j] != rings[k]
      decreases n, 0
    {
      hide Keeps, Exact;
      rings := [];
      for i := 0 to n
        invariant |rings| == i
        invariant forall j :: 0 <= j < i ==>
          fresh(rings[j]) && rings[j].subrings == [] && rings[j].wants == [] &&
          rings[j].hmac == hmac && rings[j].Here() == EMPTY
        invariant forall j, k :: 0 <= j < k < i ==> rings[j] != rings[k]
      {
        var ring := new BridgeRing(hmac, []);
        rings := rings + [ring];
      }
    }

    method Clear()
      requires Valid()
      modifies Repr()
      ensures IsExact() && Here() == EMPTY
      decreases |subrings|
    {
      hide Keeps, Exact;
      bridges, bridgesByID, isSorted, sortedKeys := map[], map[], false, [];
      for i := 0 to |subrings|
        invariant Here() == EMPTY
        invariant forall j :: 0 <= j < i ==> subrings[j].Here() == EMPTY
        invariant forall j :: i <= j < |subrings| ==> Keeps(subrings[j].Here())
      {
        subrings[i].Clear();
      }
      EmptyIsExact(Subs(), wants);
    }

    /** Takes the bridge out of the dictionaries but leaves its key in the lists. */
    method Remove(b: Bridge)
      requires Valid()
      modifies Repr()
      ensures Valid()
      ensures Here() == Removed(old(Here()), hmac(b.fingerprint))
      ensures forall i :: 0 <= i < |subrings| ==>
        subrings[i].Here() == Removed(old(subrings[i].Here()), hmac(b.fingerprint))
      ensures old(IsExact()) ==> (IsExact() <==> hmac(b.fingerprint) !in old(bridges))
      decreases |subrings|, 1
    {
      hide Keeps, Exact;
      var pos := hmac(b.fingerprint);
      RemoveFromSubrings(b);
      if pos in bridges {
        bridges := bridges - {pos};
      }
      RemoveKeepsExact(old(Here()), old(Subs()), wants, pos, Here(), Subs());
    }

    method RemoveFromSubrings(b: Bridge)
      requires Valid()
      modifies Repr() - {this}
      ensures forall i :: 0 <= i < |subrings| ==>
        subrings[i].Here() == Removed(old(subrings[i].Here()), hmac(b.fingerprint))
      decreases |subrings|, 0
    {
      hide Keeps, Exact, Removed;
      var pos := hmac(b.fingerprint);
      for i := 0 to |subrings|
        invariant forall j :: 0 <= j < i ==> subrings[j].Here() == Removed(old(subrings[j].Here()), pos)
        invariant forall j :: i <= j < |subrings| ==> subrings[j].Here() == old(subrings[j].Here())
      {
        subrings[i].Remove(b);
      }
    }

    /** A bridge takes its place in the ring and in the subrings that it matches; one that was there
        is replaced. */
    method Insert(b: Bridge)
      requires Valid()
      modifies Repr()
      ensures Valid()
      ensures Here() == Inserted(old(Here()), hmac(b.fingerprint), b)
      ensures Subs() == SubsInserted(old(Subs()), wants, hmac(b.fingerprint), b)
      ensures old(IsExact()) ==> (IsExact() <==> Steady(old(bridges), wants, hmac(b.fingerprint), b))
      decreases |subrings|, 1
    {
      hide Keeps, Inserted, Exact, Steady;
      var pos := hmac(b.fingerprint);
      InsertIntoSubrings(b);
      InsertHere(b);
      assert Subs() == SubsInserted(old(Subs()), wants, pos, b);
      AllInsertedKeep(old(Here()), old(Subs()), wants, pos, b);
      if old(IsExact()) {
        InsertKeepsExact(old(Here()), old(Subs()), wants, pos, b);
      }
    }

    method InsertIntoSubrings(b: Bridge)
      requires Valid()
      modifies subrings
      ensures forall i :: 0 <= i < |subrings| ==>
        subrings[i].Here() == SubInserted(old(subrings[i].Here()), wants[i], hmac(b.fingerprint), b)
      decreases |subrings|, 0
    {
      hide Keeps, Inserted, Exact, Steady;
      for i := 0 to |subrings|
        invariant forall j :: 0 <= j < i ==>
          subrings[j].Here() == SubInserted(old(subrings[j].Here()), wants[j], hmac(b.fingerprint), b)
        invariant forall j :: i <= j < |subrings| ==> subrings[j].Here() == old(subrings[j].Here())
      {
        match wants[i]
        case Port(port, _) =>
          if port == b.orPort {
            subrings[i].Insert(b);
          }
        case Stable(_) =>
          if b.stable {
            subrings[i].Insert(b);
          }
      }
    }

    method InsertHere(b: Bridge)
      modifies this
      ensures Here() == Inserted(old(Here()), hmac(b.fingerprint), b)
    {
      var pos := hmac(b.fingerprint);
      if pos !in bridges {
        sortedKeys := sortedKeys + [pos];
        isSorted := false;
      }
      bridges := bridges[pos := b];
      bridgesByID := bridgesByID[b.fingerprint := b];
    }

    method SortKeys()
      requires Keeps(Here())
      modifies this`sortedKeys, this`isSorted
      ensures Settled(old(Here()), Here()) && isSorted && sortedKeys == Sort(old(sortedKeys))
    {
      if !isSorted {
        sortedKeys := Sort(sortedKeys);
        isSorted := true;
      } else {
        SortOfSorted(sortedKeys);
      }
    }

    /** The keys from a position on, around the end of the ring; all of them, in whatever order they
        are, when there are not more than wanted. */
    method GetBridgeKeysAt(pos: nat, n: nat) returns (r: seq<nat>)
      requires Keeps(Here()) && pos < DIGEST_SPACE
      modifies this`sortedKeys, this`isSorted
      ensures Keeps(Here()) && Settled(old(Here()), Here())
      ensures n < |sortedKeys| ==> r == Slice(Sort(old(sortedKeys)), pos, n)
      ensures n >= |sortedKeys| ==> r == old(sortedKeys)
      ensures Elements(r) == Elements(Slice(Sort(old(sortedKeys)), pos, n))
    {
      hide Keeps, Settled, Elements, Slice;
      SortKeepsElements(sortedKeys);
      if n >= |sortedKeys| {
        SettledRefl(Here());
        SliceOfFew(Sort(sortedKeys), pos, n);
        return sortedKeys;
      }
      SortKeys();
      SettledKeeps(old(Here()), Here());
      r := SliceFrom(sortedKeys, pos, n);
    }

    /** The bridges at the keys in distinct subnets; None when a key has no bridge. */
    method FilterDistinctSubnets(keys: seq<nat>) returns (kept: Option<seq<Bridge>>)
      ensures kept.Some? <==> forall k :: k in keys ==> k in bridges
      ensures kept.Some? ==> kept.value == Greedy(BridgesAt(bridges, keys), {})
    {
      var chosen: seq<Bridge> := [];
      var subnets: seq<Network> := [];
      for i := 0 to |keys|
        invariant forall k :: k in keys[..i] ==> k in bridges
        invariant chosen == Greedy(BridgesAt(bridges, keys[..i]), {})
        invariant (set s | s in subnets) == Networks(BridgesAt(bridges, keys[..i]))
      {
        if keys[i] !in bridges {
          return None;
        }
        var bridge := bridges[keys[i]];
        ExtendGreedy(bridges, keys, i);
        if bridge.address.None? {
          continue;
        }
        var jump := InSomeSubnet(bridge.address.value, subnets);
        if jump {
          continue;
        }
        chosen := chosen + [bridge];
        subnets := subnets + [NetworkOf(bridge.address.value)];
      }
      assert keys[..|keys|] == keys;
      return Some(chosen);
    }

    /** The keys that a subring contributes. */
    method ForcedKeysOf(i: nat, pos: nat) returns (keys: seq<nat>)
      requires Valid() && pos < DIGEST_SPACE && i < |subrings|
      modifies subrings[i]
      ensures Keeps(subrings[i].Here()) && Settled(old(subrings[i].Here()), subrings[i].Here())
      ensures Elements(keys) == Elements(SubKeys(old(subrings[i].Here()), wants[i], pos))
    {
      hide Keeps, Settled, Elements, Slice;
      var subring := subrings[i];
      var count := wants[i].count;
      if |subring.bridges| < count {
        count := |subring.bridges|;
      }
      keys := subring.GetBridgeKeysAt(pos, count);
    }

    /** The keys that all subrings contribute. */
    method ForcedKeysAt(pos: nat) returns (forced: seq<nat>)
      requires Valid() && pos < DIGEST_SPACE
      modifies subrings
      ensures forall i :: 0 <= i < |subrings| ==>
        Keeps(subrings[i].Here()) && Settled(old(subrings[i].Here()), subrings[i].Here())
      ensures Elements(forced) == AllSubKeys(old(Subs()), wants, pos)
    {
      hide Keeps, Settled, SubKeys;
      forced := [];
      ghost var before := Subs();
      for i := 0 to |subrings|
        invariant Keeps(Here())
        invariant forall j :: 0 <= j < i ==>
          Keeps(subrings[j].Here()) && Settled(before[j], subrings[j].Here())
        invariant forall j :: i <= j < |subrings| ==> before[j] == subrings[j].Here()
        invariant Elements(forced) == AllSubKeys(before[..i], wants[..i], pos)
      {
        var keys := ForcedKeysOf(i, pos);
        ConcatElements(forced, keys);
        forced := forced + keys;
        AllSubKeysStep(before, wants, pos, i);
      }
      assert before[..|before|] == before && wants[..|wants|] == wants;
    }

    /** The sorted keys that an answer is chosen from. */
    method ChooseKeys(pos: nat, n: nat) returns (keys: seq<nat>)
      requires Valid() && pos < DIGEST_SPACE
      modifies Repr()
      ensures keys == SortedSeq(ChosenKeys(old(Here()), old(Subs()), wants, pos, n))
      ensures Keeps(Here()) && Settled(old(Here()), Here())
      ensures forall i :: 0 <= i < |subrings| ==>
        Keeps(subrings[i].Here()) && Settled(old(subrings[i].Here()), subrings[i].Here())
    {
      hide Keeps, Settled, Elements, AllSubKeys, Slice, SortedSeq, Distinct, Sort;
      var forced := ForcedKeysAt(pos);
      assert this !in subrings && Here() == old(Here());
      var near := GetBridgeKeysAt(pos, n + n);
      keys := Merge(forced, near);
    }

    /** The first n bridges at sorted keys, with or without the subnet filter. */
    method BridgesFor(ghost chosen: set<nat>, keys: seq<nat>, n: nat, filterBySubnet: bool)
      returns (answer: Option<seq<Bridge>>)
      requires keys == SortedSeq(chosen)
      ensures answer == Finish(bridges, chosen, n, filterBySubnet)
    {
      hide Greedy, SortedSeq;
      SortedSeqHolds(chosen);
      var all: Option<seq<Bridge>>;
      if filterBySubnet {
        all := FilterDistinctSubnets(keys);
      } else {
        all := if forall k :: k in keys ==> k in bridges then Some(BridgesAt(bridges, keys)) else None;
      }
      answer := if all.None? then None
                else Some(if |all.value| > n then all.value[..n] else all.value);
    }

    /** The bridges that a client at a position gets: None (KeyError) when a chosen key has lost its
        bridge. An exact ring answers by its bridges alone. */
    method GetBridges(pos: nat, n: nat, filterBySubnet: bool) returns (answer: Option<seq<Bridge>>)
      requires Valid() && pos < DIGEST_SPACE
      modifies Repr()
      ensures Valid() && bridges == old(bridges)
      ensures answer ==
        Finish(bridges, ChosenKeys(old(Here()), old(Subs()), wants, pos, n), n, filterBySubnet)
      ensures old(IsExact()) ==>
        IsExact() && answer == Answer(bridges, wants, pos, n, filterBySubnet)
    {
      hide Keeps, Settled, ChosenKeys, Finish, Exact, Candidates;
      var keys := ChooseKeys(pos, n);
      SettledKeepsAll(old(Here()), old(Subs()), wants, Here(), Subs());
      answer := BridgesFor(ChosenKeys(old(Here()), old(Subs()), wants, pos, n), keys, n, filterBySubnet);
      if old(IsExact()) {
        ChosenFromExact(old(Here()), old(Subs()), wants, pos, n);
      }
    }
  }

  /** Whether an address lies in one of the subnets. */
  method InSomeSubnet(a: Address, subnets: seq<Network>) returns (found: bool)
    ensures found <==> NetworkOf(a) in subnets
  {
    found := false;
    for i := 0 to |subnets|
      invariant !found && NetworkOf(a) !in subnets[..i]
    {
      if InNetwork(a, subnets[i]) {
        return true;
      }
    }
  }
}
