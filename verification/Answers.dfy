/** What clients of a hashring get (bridgedb/bridgerings.py), as a function of the bridges in it. */
module Answers {
  import opened Common
  import opened BridgeData
  import opened Nearest
  import opened Windows
  import opened Subnets

  // ---------------------------------------------------------------- forced bridges

  /** An entry of BridgeRingParameters: at least count bridges with this port, or with the flag
      "stable". */
  datatype Want = Port(port: nat, count: nat) | Stable(count: nat)

  predicate Matches(w: Want, b: Bridge)
  {
    match w
    case Port(port, _) => port == b.orPort
    case Stable(_) => b.stable
  }

  /** The bridges of a ring that belong in a subring. */
  function Matching(bridges: map<nat, Bridge>, w: Want): map<nat, Bridge>
  {
    map k | k in bridges && Matches(w, bridges[k]) :: bridges[k]
  }

  // ---------------------------------------------------------------- answers

  /** The keys that a subring contributes: its first ones, clockwise, or all when there are fewer. */
  ghost function ForcedKeys(bridges: map<nat, Bridge>, w: Want, pos: nat): set<nat>
  {
    First(Matching(bridges, w).Keys, Clockwise(pos), w.count)
  }

  ghost function AllForcedKeys(bridges: map<nat, Bridge>, wants: seq<Want>, pos: nat): set<nat>
  {
    set i, k | 0 <= i < |wants| && k in ForcedKeys(bridges, wants[i], pos) :: k
  }

  /** The keys among which an answer of n bridges is chosen. */
  ghost function Candidates(bridges: map<nat, Bridge>, wants: seq<Want>, pos: nat, n: nat): set<nat>
  {
    AllForcedKeys(bridges, wants, pos) + Window(bridges.Keys, pos, n)
  }

  function BridgesAt(bridges: map<nat, Bridge>, keys: seq<nat>): seq<Bridge>
    requires forall k :: k in keys ==> k in bridges
  {
    seq(|keys|, i requires 0 <= i < |keys| => bridges[keys[i]])
  }

  function Truncated(bs: seq<Bridge>, n: nat): seq<Bridge> { if |bs| > n then bs[..n] else bs }

  /** Sorting the chosen keys, filtering and truncating; None where a key has lost its bridge. */
  ghost function Finish(bridges: map<nat, Bridge>, keys: set<nat>, n: nat, filterBySubnet: bool)
    : Option<seq<Bridge>>
  {
    if !(keys <= bridges.Keys) then None
    else
      assert forall k :: k in SortedSeq(keys) ==> k in Elements(SortedSeq(keys));
      var bs := BridgesAt(bridges, SortedSeq(keys));
      Some(Truncated(if filterBySubnet then Greedy(bs, {}) else bs, n))
  }

  /** What a ring answers, as a function of the bridges in it: neither the order of insertion nor
      the state of the sorting enters. */
  ghost function Answer(bridges: map<nat, Bridge>, wants: seq<Want>, pos: nat, n: nat,
                        filterBySubnet: bool): Option<seq<Bridge>>
  {
    Finish(bridges, Candidates(bridges, wants, pos, n), n, filterBySubnet)
  }

  lemma CandidatesAreKeys(bridges: map<nat, Bridge>, wants: seq<Want>, pos: nat, n: nat)
    ensures Candidates(bridges, wants, pos, n) <= bridges.Keys
  {
  }

  lemma SortedSeqHolds(keys: set<nat>)
    ensures forall k :: k in SortedSeq(keys) <==> k in keys
    ensures |SortedSeq(keys)| == |keys|
  {
    assert forall k :: k in SortedSeq(keys) <==> k in Elements(SortedSeq(keys));
    DistinctSize(SortedSeq(keys));
  }

  /** A ring answers with bridges that it holds. */
  lemma AnswersAreHeld(bridges: map<nat, Bridge>, keys: set<nat>, n: nat, filterBySubnet: bool, b: Bridge)
    requires Finish(bridges, keys, n, filterBySubnet).Some?
    requires b in Finish(bridges, keys, n, filterBySubnet).value
    ensures exists k :: k in bridges && bridges[k] == b
  {
    hide Greedy, SortedSeq;
    SortedSeqHolds(keys);
    var bs := BridgesAt(bridges, SortedSeq(keys));
    if filterBySubnet {
      GreedyChooses(bs, {}, b);
    }
    var i :| 0 <= i < |bs| && bs[i] == b;
    assert SortedSeq(keys)[i] in bridges;
  }

  /** The networks of the bridges at some keys. */
  ghost function NetworksAt(bridges: map<nat, Bridge>, keys: set<nat>): set<Network>
    requires keys <= bridges.Keys
  {
    set k | k in keys && bridges[k].address.Some? :: NetworkOf(bridges[k].address.value)
  }

  lemma NetworksOfBridgesAt(bridges: map<nat, Bridge>, keys: seq<nat>)
    requires forall k :: k in keys ==> k in bridges
    ensures Elements(keys) <= bridges.Keys
    ensures Networks(BridgesAt(bridges, keys)) == NetworksAt(bridges, Elements(keys))
  {
    hide NetworkOf;
    var bs := BridgesAt(bridges, keys);
    forall m | m in NetworksAt(bridges, Elements(keys))
      ensures m in Networks(bs)
    {
      var i :| 0 <= i < |keys| && bridges[keys[i]].address.Some? &&
        NetworkOf(bridges[keys[i]].address.value) == m;
      assert bs[i] in bs;
    }
    forall m | m in Networks(bs)
      ensures m in NetworksAt(bridges, Elements(keys))
    {
      var i :| 0 <= i < |bs| && bs[i].address.Some? && NetworkOf(bs[i].address.value) == m;
      assert keys[i] in Elements(keys);
    }
  }

  lemma TruncatedIsDiverse(bs: seq<Bridge>, n: nat)
    requires Diverse(bs)
    ensures Diverse(Truncated(bs, n)) && |Truncated(bs, n)| == Min(n, |bs|)
  {
  }

  /** An answer filtered by subnet has exactly as many bridges as were asked for or as there are
      networks among the chosen keys, whichever is less, and all in different networks. */
  lemma AnswerIsDiverse(bridges: map<nat, Bridge>, wants: seq<Want>, pos: nat, n: nat)
    ensures
      var keys := Candidates(bridges, wants, pos, n);
      var answer := Answer(bridges, wants, pos, n, true);
      && keys <= bridges.Keys && answer.Some? && Diverse(answer.value)
      && |answer.value| == Min(n, |NetworksAt(bridges, keys)|)
  {
    hide Candidates, Diverse, Networks, NetworksAt, Greedy, Truncated;
    var keys := Candidates(bridges, wants, pos, n);
    CandidatesAreKeys(bridges, wants, pos, n);
    SortedSeqHolds(keys);
    var bs := BridgesAt(bridges, SortedSeq(keys));
    GreedyIsDiverse(bs, {});
    NetworksOfBridgesAt(bridges, SortedSeq(keys));
    assert Networks(bs) - {} == NetworksAt(bridges, keys);
    TruncatedIsDiverse(Greedy(bs, {}), n);
  }

  lemma FirstOfMin(s: set<nat>, f: nat -> int, n: nat)
    ensures First(s, f, Min(n, |s|)) == First(s, f, n)
  {
    if n > |s| {
      FirstOfFew(s, f, n);
      FirstOfFew(s, f, |s|);
    }
  }

  lemma MembersOfBridgesAt(bridges: map<nat, Bridge>, keys: seq<nat>)
    requires forall k :: k in keys ==> k in bridges
    ensures Elements(keys) <= bridges.Keys
    ensures forall b :: b in BridgesAt(bridges, keys) <==>
      exists k :: k in Elements(keys) && bridges[k] == b
  {
    var bs := BridgesAt(bridges, keys);
    forall k | k in Elements(keys)
      ensures bridges[k] in bs
    {
      var i :| 0 <= i < |keys| && keys[i] == k;
      assert bs[i] == bridges[k];
    }
    forall i | 0 <= i < |bs|
      ensures keys[i] in Elements(keys) && bridges[keys[i]] == bs[i]
    {
    }
  }
}
