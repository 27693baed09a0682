/** How much of a client's answer changes when a bridge is inserted into a hashring
    (bridgedb/bridgerings.py): with the subnet filter and with forced subrings. */
module Disruption {
  import opened Common
  import opened BridgeData
  import opened Nearest
  import opened Windows
  import opened Subnets
  import opened Answers

  // ---------------------------------------------------------------- leaders

  function NetworkAt(bridges: map<nat, Bridge>, k: nat): Option<Network>
  {
    if k in bridges && bridges[k].address.Some? then Some(NetworkOf(bridges[k].address.value)) else None
  }

  /** Whether the bridge at k has an address whose network no smaller key shares. */
  ghost predicate Leads(bridges: map<nat, Bridge>, keys: set<nat>, k: nat)
  {
    k in keys && NetworkAt(bridges, k).Some? &&
    forall y :: y in keys && y < k ==> NetworkAt(bridges, y) != NetworkAt(bridges, k)
  }

  /** The keys that the subnet filter keeps: the smallest of each network. */
  ghost function Leaders(bridges: map<nat, Bridge>, keys: set<nat>): set<nat>
  {
    set k | k in keys && Leads(bridges, keys, k)
  }

  /** A key that comes pushes at most the leader of its own network aside. */
  lemma LeadersAfterArrival(bridges: map<nat, Bridge>, keys: set<nat>, k: nat)
    requires k !in keys
    ensures OneArrives(Leaders(bridges, keys), Leaders(bridges, keys + {k}), k)
  {
    hide NetworkAt;
    var w, w' := Leaders(bridges, keys), Leaders(bridges, keys + {k});
    forall x, y | x in w - w' && y in w - w'
      ensures x == y
    {
      assert NetworkAt(bridges, x) == NetworkAt(bridges, k) == NetworkAt(bridges, y);
    }
  }

  /** A key that goes is succeeded by at most one leader. */
  lemma LeadersAfterDeparture(bridges: map<nat, Bridge>, keys: set<nat>, x: nat) returns (z: nat)
    ensures OneArrives(Leaders(bridges, keys), Leaders(bridges, keys - {x}), z)
  {
    hide NetworkAt;
    var w, w' := Leaders(bridges, keys), Leaders(bridges, keys - {x});
    assert w - w' <= {x};
    forall y, y' | y in w' - w && y' in w' - w
      ensures y == y'
    {
      assert NetworkAt(bridges, y) == NetworkAt(bridges, x) == NetworkAt(bridges, y');
    }
    if w' - w == {} {
      z := Outside(w);
    } else {
      z :| z in w' - w;
    }
    assert forall y :: y in w' ==> y in w' - w || y in w;
  }

  lemma Outside(s: set<nat>) returns (z: nat)
    ensures z !in s
  {
    z := if s == {} then 0 else Largest(s) + 1;
  }

  // ---------------------------------------------------------------- selections

  /** The keys of an answer of n bridges that is chosen among some keys. */
  ghost function Selected(bridges: map<nat, Bridge>, keys: set<nat>, n: nat, filterBySubnet: bool): set<nat>
  {
    First(if filterBySubnet then Leaders(bridges, keys) else keys, Ascending(), n)
  }

  lemma ArrivalLoses(bridges: map<nat, Bridge>, keys: set<nat>, k: nat, n: nat, filterBySubnet: bool)
    requires k !in keys
    ensures AtMostOne(Selected(bridges, keys, n, filterBySubnet) - Selected(bridges, keys + {k}, n, filterBySubnet))
  {
    hide First, Leaders;
    if filterBySubnet {
      LeadersAfterArrival(bridges, keys, k);
      ChoiceFromChoices(Leaders(bridges, keys), Leaders(bridges, keys + {k}), Ascending(), k, n);
    } else {
      ChoiceFromChoices(keys, keys + {k}, Ascending(), k, n);
    }
  }

  lemma DepartureLoses(bridges: map<nat, Bridge>, keys: set<nat>, x: nat, n: nat, filterBySubnet: bool)
    ensures AtMostOne(Selected(bridges, keys, n, filterBySubnet) - Selected(bridges, keys - {x}, n, filterBySubnet))
  {
    hide First, Leaders;
    if filterBySubnet {
      var z := LeadersAfterDeparture(bridges, keys, x);
      ChoiceFromChoices(Leaders(bridges, keys), Leaders(bridges, keys - {x}), Ascending(), z, n);
    } else {
      var z := Outside(keys);
      ChoiceFromChoices(keys, keys - {x}, Ascending(), z, n);
    }
  }

  /** Losses of two changes in a row add up. */
  lemma LossesAdd(a: set<nat>, b: set<nat>, c: set<nat>)
    ensures |a - c| <= |a - b| + |b - c|
  {
    SubsetSize(a - c, (a - b) + (b - c));
    assert |(a - b) + (b - c)| <= |a - b| + |b - c|;
  }

  lemma {:induction false} DeparturesLose(bridges: map<nat, Bridge>, keys: set<nat>, gone: set<nat>, n: nat,
                                          filterBySubnet: bool)
    ensures |Selected(bridges, keys, n, filterBySubnet) - Selected(bridges, keys - gone, n, filterBySubnet)|
      <= |gone|
    decreases |gone|
  {
    hide Selected;
    if gone == {} {
      assert keys - gone == keys;
    } else {
      var x :| x in gone;
      var a, b := Selected(bridges, keys, n, filterBySubnet), Selected(bridges, keys - {x}, n, filterBySubnet);
      var c := Selected(bridges, keys - gone, n, filterBySubnet);
      DepartureLoses(bridges, keys, x, n, filterBySubnet);
      AtMostOneSize(a - b);
      DeparturesLose(bridges, keys - {x}, gone - {x}, n, filterBySubnet);
      assert keys - {x} - (gone - {x}) == keys - gone;
      LossesAdd(a, b, c);
    }
  }

  /** One arrival and some departures: a filtered selection loses at most one key more than departed,
      an unfiltered one at most as many, or one. */
  lemma ChangeLoses(bridges: map<nat, Bridge>, keys: set<nat>, keys': set<nat>, k: nat, n: nat,
                    filterBySubnet: bool)
    requires k !in keys && keys' <= keys + {k}
    ensures
      var lost := |Selected(bridges, keys, n, filterBySubnet) - Selected(bridges, keys', n, filterBySubnet)|;
      lost <= |keys - keys'| + (if filterBySubnet || keys <= keys' then 1 else 0)
  {
    hide Selected;
    var a, c := Selected(bridges, keys, n, filterBySubnet), Selected(bridges, keys', n, filterBySubnet);
    var gone := keys - keys';
    if k !in keys' {
      DeparturesLose(bridges, keys, gone, n, filterBySubnet);
      assert keys' == keys - gone;
    } else if filterBySubnet || gone == {} {
      var b := Selected(bridges, keys + {k}, n, filterBySubnet);
      ArrivalLoses(bridges, keys, k, n, filterBySubnet);
      AtMostOneSize(a - b);
      DeparturesLose(bridges, keys + {k}, gone, n, filterBySubnet);
      assert keys' == keys + {k} - gone;
      LossesAdd(a, b, c);
    } else {
      var x :| x in gone;
      var b := Selected(bridges, keys + {k} - {x}, n, false);
      ReplacementLoses(bridges, keys, k, x, n);
      AtMostOneSize(a - b);
      DeparturesLose(bridges, keys + {k} - {x}, gone - {x}, n, false);
      assert keys' == keys + {k} - {x} - (gone - {x});
      LossesAdd(a, b, c);
    }
  }

  lemma ReplacementLoses(bridges: map<nat, Bridge>, keys: set<nat>, k: nat, x: nat, n: nat)
    requires k !in keys
    ensures AtMostOne(Selected(bridges, keys, n, false) - Selected(bridges, keys + {k} - {x}, n, false))
  {
    hide First;
    ChoiceFromChoices(keys, keys + {k} - {x}, Ascending(), k, n);
  }

  // ---------------------------------------------------------------- candidates

  /** The number of forced subrings that a bridge goes into. */
  function MatchCount(wants: seq<Want>, b: Bridge): nat
  {
    if wants == [] then 0
    else MatchCount(wants[..|wants| - 1], b) + if Matches(wants[|wants| - 1], b) then 1 else 0
  }

  lemma MatchingAfterInsert(bridges: map<nat, Bridge>, w: Want, k: nat, b: Bridge)
    requires k !in bridges
    ensures Matching(bridges[k := b], w).Keys == Matching(bridges, w).Keys + if Matches(w, b) then {k} else {}
  {
  }

  /** A subring gives up at most one of its keys, and none when the new bridge is not for it. */
  lemma ForcedAfterInsert(bridges: map<nat, Bridge>, w: Want, k: nat, b: Bridge, pos: nat)
    requires InSpace(bridges.Keys) && pos < DIGEST_SPACE && k !in bridges
    ensures
      var before, after := ForcedKeys(bridges, w, pos), ForcedKeys(bridges[k := b], w, pos);
      after <= before + {k} && |before - after| <= if Matches(w, b) then 1 else 0
  {
    hide First, Clockwise;
    var before, after := ForcedKeys(bridges, w, pos), ForcedKeys(bridges[k := b], w, pos);
    var keys := Matching(bridges, w).Keys;
    MatchingAfterInsert(bridges, w, k, b);
    if Matches(w, b) {
      ClockwiseInjective(keys, pos);
      ChoiceFromGrownSet(keys, Clockwise(pos), k, w.count);
      AtMostOneSize(before - after);
    } else {
      assert Matching(bridges[k := b], w).Keys == keys;
      assert before - after == {};
    }
  }

  lemma ForcedOfLonger(bridges: map<nat, Bridge>, wants: seq<Want>, pos: nat)
    requires wants != []
    ensures AllForcedKeys(bridges, wants, pos) ==
      AllForcedKeys(bridges, wants[..|wants| - 1], pos) + ForcedKeys(bridges, wants[|wants| - 1], pos)
  {
    hide ForcedKeys;
  }

  /** What a union loses is lost by one of its parts. */
  lemma UnionLoses(a: set<nat>, a': set<nat>, b: set<nat>, b': set<nat>)
    ensures |(a + b) - (a' + b')| <= |a - a'| + |b - b'|
  {
    SubsetSize((a + b) - (a' + b'), (a - a') + (b - b'));
    assert |(a - a') + (b - b')| <= |a - a'| + |b - b'|;
  }

  lemma {:induction false} AllForcedAfterInsert(bridges: map<nat, Bridge>, wants: seq<Want>, k: nat, b: Bridge,
                                                pos: nat)
    requires InSpace(bridges.Keys) && pos < DIGEST_SPACE && k !in bridges
    ensures
      var before, after := AllForcedKeys(bridges, wants, pos), AllForcedKeys(bridges[k := b], wants, pos);
      after <= before + {k} && |before - after| <= MatchCount(wants, b)
    decreases |wants|
  {
    hide ForcedKeys, AllForcedKeys, Matches, InSpace;
    if wants == [] {
      NothingForced(bridges, pos);
      NothingForced(bridges[k := b], pos);
    } else {
      var shorter, w := wants[..|wants| - 1], wants[|wants| - 1];
      ForcedOfLonger(bridges, wants, pos);
      ForcedOfLonger(bridges[k := b], wants, pos);
      AllForcedAfterInsert(bridges, shorter, k, b, pos);
      ForcedAfterInsert(bridges, w, k, b, pos);
      UnionLoses(AllForcedKeys(bridges, shorter, pos), AllForcedKeys(bridges[k := b], shorter, pos),
                 ForcedKeys(bridges, w, pos), ForcedKeys(bridges[k := b], w, pos));
    }
  }

  lemma NothingForced(bridges: map<nat, Bridge>, pos: nat)
    ensures AllForcedKeys(bridges, [], pos) == {}
  {
  }

  /** The keys that an answer is chosen from lose one key for the window and one for each subring
      that the new bridge goes into. */
  lemma CandidatesAfterInsert(bridges: map<nat, Bridge>, wants: seq<Want>, k: nat, b: Bridge, pos: nat, n: nat)
    requires InSpace(bridges.Keys) && pos < DIGEST_SPACE && k !in bridges
    ensures
      var before, after := Candidates(bridges, wants, pos, n), Candidates(bridges[k := b], wants, pos, n);
      after <= before + {k} && |before - after| <= 1 + MatchCount(wants, b)
  {
    hide AllForcedKeys, Window, InSpace;
    AllForcedAfterInsert(bridges, wants, k, b, pos);
    MinimalDisruption(bridges.Keys, k, pos, n);
    assert bridges[k := b].Keys == bridges.Keys + {k};
    UnionLoses(AllForcedKeys(bridges, wants, pos), AllForcedKeys(bridges[k := b], wants, pos),
               Window(bridges.Keys, pos, n), Window(bridges.Keys + {k}, pos, n));
    var w, w' := Window(bridges.Keys, pos, n), Window(bridges.Keys + {k}, pos, n);
    assert forall x :: x in w' ==> x in w || x in w' - w;
  }

  // ---------------------------------------------------------------- answers

  /** On ascending keys the subnet filter keeps the leaders. */
  lemma {:induction false} GreedyKeepsLeaders(bridges: map<nat, Bridge>, keys: seq<nat>)
    requires Increasing(keys, Ascending()) && forall k :: k in keys ==> k in bridges
    ensures forall k :: k in SortedSeq(Leaders(bridges, Elements(keys))) ==> k in bridges
    ensures Greedy(BridgesAt(bridges, keys), {}) == BridgesAt(bridges, SortedSeq(Leaders(bridges, Elements(keys))))
    decreases |keys|
  {
    hide Greedy, Leaders, NetworkOf, Increasing, Elements, SortedSeq, Networks;
    if keys == [] {
      NoLeaders(bridges);
    } else {
      var n := |keys| - 1;
      var before, k := keys[..n], keys[n];
      IncreasingPrefix(keys);
      GreedyKeepsLeaders(bridges, before);
      var bs, kept := BridgesAt(bridges, before), SortedSeq(Leaders(bridges, Elements(before)));
      assert BridgesAt(bridges, keys) == bs + [bridges[k]];
      GreedyAppend(bs, bridges[k], {});
      LastLeads(bridges, keys);
      if Leads(bridges, Elements(keys), k) {
        assert BridgesAt(bridges, kept + [k]) == BridgesAt(bridges, kept) + [bridges[k]];
      }
    }
  }

  lemma NoLeaders(bridges: map<nat, Bridge>)
    ensures SortedSeq(Leaders(bridges, Elements([]))) == []
    ensures Greedy(BridgesAt(bridges, []), {}) == []
  {
    assert Leaders(bridges, Elements([])) == {};
  }

  lemma IncreasingPrefix(keys: seq<nat>)
    requires Increasing(keys, Ascending()) && keys != []
    ensures
      var n := |keys| - 1;
      && Increasing(keys[..n], Ascending()) && Elements(keys) == Elements(keys[..n]) + {keys[n]}
      && keys[n] !in Elements(keys[..n])
      && (forall y :: y in Elements(keys[..n]) ==> y < keys[n])
      && (forall y :: y in keys[..n] ==> y in keys)
  {
  }

  /** The largest key leads when its network is new; nothing else changes. */
  lemma LastLeads(bridges: map<nat, Bridge>, keys: seq<nat>)
    requires Increasing(keys, Ascending()) && keys != [] && forall k :: k in keys ==> k in bridges
    ensures
      var n := |keys| - 1;
      var before, k := keys[..n], keys[n];
      var kept := SortedSeq(Leaders(bridges, Elements(before)));
      && (forall y :: y in before ==> y in bridges)
      && (Leads(bridges, Elements(keys), k) <==>
            bridges[k].address.Some? &&
            NetworkOf(bridges[k].address.value) !in {} + Networks(BridgesAt(bridges, before)))
      && SortedSeq(Leaders(bridges, Elements(keys))) ==
           if Leads(bridges, Elements(keys), k) then kept + [k] else kept
  {
    hide Greedy, NetworkOf, SortedSeq, Leaders, Leads, Networks, Increasing, Elements;
    var n := |keys| - 1;
    var before, k := keys[..n], keys[n];
    IncreasingPrefix(keys);
    LeadsWhenNew(bridges, before, k);
    var fewer := Leaders(bridges, Elements(before));
    LeadersOfLarger(bridges, Elements(before), k);
    LeadersAreKeys(bridges, Elements(before));
    if Leads(bridges, Elements(keys), k) {
      SortedSeqAppend(fewer, k);
    } else {
      assert Leaders(bridges, Elements(keys)) == fewer;
    }
  }

  lemma LeadsWhenNew(bridges: map<nat, Bridge>, before: seq<nat>, k: nat)
    requires k in bridges && (forall y :: y in before ==> y in bridges)
    requires forall y :: y in Elements(before) ==> y < k
    ensures Leads(bridges, Elements(before) + {k}, k) <==>
      bridges[k].address.Some? &&
      NetworkOf(bridges[k].address.value) !in {} + Networks(BridgesAt(bridges, before))
  {
    hide NetworkOf, Networks, BridgesAt;
    NetworksOfBridgesAt(bridges, before);
  }

  lemma LeadersOfLarger(bridges: map<nat, Bridge>, keys: set<nat>, k: nat)
    requires forall y :: y in keys ==> y < k
    ensures Leaders(bridges, keys + {k}) ==
      Leaders(bridges, keys) + if Leads(bridges, keys + {k}, k) then {k} else {}
  {
    hide NetworkAt;
  }

  lemma SortedSeqAppend(keys: set<nat>, k: nat)
    requires forall y :: y in keys ==> y < k
    ensures SortedSeq(keys + {k}) == SortedSeq(keys) + [k]
  {
    hide SortedSeq;
    var sorted := SortedSeq(keys);
    var r := sorted + [k];
    SortedSeqHolds(keys);
    IncreasingAppend(sorted, k);
    assert Elements(r) == keys + {k};
    SortedSeqUnique(r);
  }

  lemma IncreasingAppend(r: seq<nat>, k: nat)
    requires Increasing(r, Ascending()) && forall y :: y in r ==> y < k
    ensures Increasing(r + [k], Ascending())
  {
    assert forall i :: 0 <= i < |r| ==> r[i] in r;
  }

  /** A finished answer lists the bridges at the selected keys in ascending order. */
  lemma FinishIsSelected(bridges: map<nat, Bridge>, keys: set<nat>, n: nat, filterBySubnet: bool)
    requires keys <= bridges.Keys
    ensures
      var selected := Selected(bridges, keys, n, filterBySubnet);
      && selected <= keys && (forall k :: k in SortedSeq(selected) ==> k in bridges)
      && Finish(bridges, keys, n, filterBySubnet) == Some(BridgesAt(bridges, SortedSeq(selected)))
  {
    hide First, Greedy, Leaders, SortedSeq, Elements, Increasing;
    SortedSeqHolds(keys);
    var chosen := if filterBySubnet then Leaders(bridges, keys) else keys;
    assert chosen <= keys by { LeadersAreKeys(bridges, keys); }
    SortedSeqHolds(chosen);
    GreedyKeepsLeaders(bridges, SortedSeq(keys));
    var sorted := SortedSeq(chosen);
    var m := Min(n, |sorted|);
    PrefixIsFirst(sorted, Ascending(), m);
    FirstOfMin(chosen, Ascending(), n);
    PrefixIncreases(sorted, m);
    SortedSeqUnique(sorted[..m]);
    assert Finish(bridges, keys, n, filterBySubnet).value == BridgesAt(bridges, sorted[..m]);
    FirstIsPart(chosen, Ascending(), n);
  }

  lemma PrefixIncreases(r: seq<nat>, m: nat)
    requires Increasing(r, Ascending()) && m <= |r|
    ensures Increasing(r[..m], Ascending())
  {
  }

  /** A finished answer holds exactly the bridges at the selected keys. */
  lemma FinishHoldsSelected(bridges: map<nat, Bridge>, keys: set<nat>, n: nat, filterBySubnet: bool)
    requires keys <= bridges.Keys
    ensures
      var answer := Finish(bridges, keys, n, filterBySubnet);
      var selected := Selected(bridges, keys, n, filterBySubnet);
      && answer.Some? && selected <= keys
      && forall b :: b in answer.value <==> exists k :: k in selected && bridges[k] == b
  {
    hide Selected, SortedSeq, Finish;
    FinishIsSelected(bridges, keys, n, filterBySubnet);
    MembersOfBridgesAt(bridges, SortedSeq(Selected(bridges, keys, n, filterBySubnet)));
  }

  lemma LeadersAreKeys(bridges: map<nat, Bridge>, keys: set<nat>)
    ensures Leaders(bridges, keys) <= keys
  {
  }

  // ---------------------------------------------------------------- the bound

  ghost function Lost(before: seq<Bridge>, after: seq<Bridge>): set<Bridge>
  {
    set b | b in before && b !in after
  }

  lemma {:induction false} ImageSize(bridges: map<nat, Bridge>, keys: set<nat>)
    requires keys <= bridges.Keys
    ensures |set k | k in keys :: bridges[k]| <= |keys|
    decreases |keys|
  {
    if keys != {} {
      var x :| x in keys;
      ImageSize(bridges, keys - {x});
      var fewer := set k | k in keys - {x} :: bridges[k];
      assert (set k | k in keys :: bridges[k]) == fewer + {bridges[x]};
    }
  }

  lemma LeadersIgnoreOthers(bridges: map<nat, Bridge>, keys: set<nat>, k: nat, b: Bridge, n: nat,
                            filterBySubnet: bool)
    requires k !in keys
    ensures Selected(bridges[k := b], keys, n, filterBySubnet) == Selected(bridges, keys, n, filterBySubnet)
  {
    hide First;
    forall y | y in keys
      ensures NetworkAt(bridges[k := b], y) == NetworkAt(bridges, y)
    {
    }
    hide NetworkAt;
    assert Leaders(bridges[k := b], keys) == Leaders(bridges, keys);
  }

  /** Inserting a new bridge into any ring displaces at most two bridges from any answer that is
      filtered by subnet and at most one from any other, and one more for each forced subring that
      the bridge goes into. */
  lemma NewBridgeDisplaces(bridges: map<nat, Bridge>, wants: seq<Want>, k: nat, b: Bridge, pos: nat, n: nat,
                           filterBySubnet: bool)
    requires InSpace(bridges.Keys) && pos < DIGEST_SPACE && k !in bridges
    ensures
      var before := Answer(bridges, wants, pos, n, filterBySubnet);
      var after := Answer(bridges[k := b], wants, pos, n, filterBySubnet);
      && before.Some? && after.Some?
      && |Lost(before.value, after.value)| <= (if filterBySubnet then 2 else 1) + MatchCount(wants, b)
  {
    hide Candidates, Selected, Finish, InSpace;
    var bridges' := bridges[k := b];
    var keys, keys' := Candidates(bridges, wants, pos, n), Candidates(bridges', wants, pos, n);
    CandidatesAreKeys(bridges, wants, pos, n);
    CandidatesAreKeys(bridges', wants, pos, n);
    CandidatesAfterInsert(bridges, wants, k, b, pos, n);
    FinishHoldsSelected(bridges, keys, n, filterBySubnet);
    FinishHoldsSelected(bridges', keys', n, filterBySubnet);
    LeadersIgnoreOthers(bridges, keys, k, b, n, filterBySubnet);
    var selected := Selected(bridges', keys, n, filterBySubnet);
    var selected' := Selected(bridges', keys', n, filterBySubnet);
    ChangeLoses(bridges', keys, keys', k, n, filterBySubnet);
    LostAreUnselected(bridges, bridges', selected, selected',
      Finish(bridges, keys, n, filterBySubnet).value, Finish(bridges', keys', n, filterBySubnet).value);
  }

  lemma LostAreUnselected(bridges: map<nat, Bridge>, bridges': map<nat, Bridge>, selected: set<nat>,
                          selected': set<nat>, before: seq<Bridge>, after: seq<Bridge>)
    requires selected <= bridges.Keys <= bridges'.Keys && selected' <= bridges'.Keys
    requires forall k :: k in bridges ==> bridges'[k] == bridges[k]
    requires forall b :: b in before <==> exists k :: k in selected && bridges[k] == b
    requires forall b :: b in after <==> exists k :: k in selected' && bridges'[k] == b
    ensures |Lost(before, after)| <= |selected - selected'|
  {
    var gone := selected - selected';
    var image := set k | k in gone :: bridges[k];
    forall k | k in selected && k in selected'
      ensures bridges[k] in after
    {
      assert bridges'[k] == bridges[k];
    }
    forall b | b in Lost(before, after)
      ensures b in image
    {
      var k :| k in selected && bridges[k] == b;
      assert k in gone;
    }
    SubsetSize(Lost(before, after), image);
    ImageSize(bridges, gone);
  }

  // ---------------------------------------------------------------- unfiltered answers

  /** Without forced subrings an unfiltered answer holds the bridges at the answer keys. */
  lemma UnfilteredAnswer(bridges: map<nat, Bridge>, pos: nat, n: nat)
    ensures
      var answer := Answer(bridges, [], pos, n, false);
      && answer.Some? && AnswerKeys(bridges.Keys, pos, n) <= bridges.Keys
      && (forall b :: b in answer.value <==>
            exists k :: k in AnswerKeys(bridges.Keys, pos, n) && bridges[k] == b)
  {
    hide First, Window, Finish, AllForcedKeys;
    NothingForced(bridges, pos);
    assert Candidates(bridges, [], pos, n) == Window(bridges.Keys, pos, n);
    CandidatesAreKeys(bridges, [], pos, n);
    FinishHoldsSelected(bridges, Window(bridges.Keys, pos, n), n, false);
  }

  /** Without forced subrings a new bridge displaces at most one bridge from any unfiltered answer. */
  lemma NewBridgeDisplacesOne(bridges: map<nat, Bridge>, k: nat, b: Bridge, pos: nat, n: nat)
    requires InSpace(bridges.Keys) && pos < DIGEST_SPACE && k !in bridges
    ensures
      var before := Answer(bridges, [], pos, n, false);
      var after := Answer(bridges[k := b], [], pos, n, false);
      && before.Some? && after.Some?
      && (forall x, y :: x in before.value && x !in after.value && y in before.value && y !in after.value ==>
            x == y)
  {
    hide Answer, InSpace;
    NewBridgeDisplaces(bridges, [], k, b, pos, n, false);
    var before := Answer(bridges, [], pos, n, false).value;
    var after := Answer(bridges[k := b], [], pos, n, false).value;
    assert MatchCount([], b) == 0;
    OneIsAll(Lost(before, after));
    assert forall x :: x in before && x !in after ==> x in Lost(before, after);
  }

  lemma OneIsAll(lost: set<Bridge>)
    requires |lost| <= 1
    ensures forall x, y :: x in lost && y in lost ==> x == y
  {
    forall x, y | x in lost && y in lost
      ensures x == y
    {
      SubsetSize({x, y}, lost);
    }
  }

  // ---------------------------------------------------------------- the bound is attained

  /** A bridge at one of the first addresses of an IPv4 network. */
  function At(prefix: nat, host: nat): Bridge
  {
    Bridge("", Some(Address(4, prefix * HOSTS_OF_16 + host)), 443, [], [], map[], true, false, "any")
  }

  const FOUR := map[10 := At(1, 0), 20 := At(2, 0), 30 := At(3, 0), 40 := At(4, 0)]
  const FIVE := FOUR[5 := At(1, 1)]

  lemma ElementsOfList(a: nat, b: nat, c: nat, d: nat, e: nat)
    ensures Elements([a, b]) == {a, b} && Elements([a, b, c]) == {a, b, c}
    ensures Elements([a, b, c, d]) == {a, b, c, d} && Elements([a, b, c, d, e]) == {a, b, c, d, e}
  {
    var r := [a, b, c, d, e];
    assert r[0] == a && r[1] == b && r[2] == c && r[3] == d && r[4] == e;
  }

  lemma WindowOfFour()
    ensures Window(FOUR.Keys, 25, 2) == {10, 20, 30, 40}
  {
    hide First, Elements;
    var four := [30, 40, 10, 20];
    assert Increasing(four, Clockwise(25));
    hide Increasing, Clockwise;
    ElementsOfList(30, 40, 10, 20, 0);
    assert FOUR.Keys == {30, 40, 10, 20};
    PrefixIsFirst(four, Clockwise(25), 4);
    assert four[..4] == four;
  }

  lemma WindowOfFive()
    ensures Window(FIVE.Keys, 25, 2) == {5, 10, 30, 40}
  {
    hide First, Elements;
    var five := [30, 40, 5, 10, 20];
    assert Increasing(five, Clockwise(25));
    hide Increasing, Clockwise;
    ElementsOfList(30, 40, 5, 10, 20);
    assert FIVE.Keys == {30, 40, 5, 10, 20};
    PrefixIsFirst(five, Clockwise(25), 4);
    assert five[..4] == [30, 40, 5, 10];
  }

  lemma NetworksOfFour()
    ensures forall k :: k in {10, 20, 30, 40} ==> NetworkAt(FOUR, k) == Some(Network(4, k / 10))
    ensures forall k :: k in {10, 20, 30, 40} ==> NetworkAt(FIVE, k) == Some(Network(4, k / 10))
    ensures NetworkAt(FIVE, 5) == Some(Network(4, 1))
  {
  }

  lemma LeadersOfFour()
    ensures Leaders(FOUR, {10, 20, 30, 40}) == {10, 20, 30, 40}
    ensures Leaders(FIVE, {5, 10, 30, 40}) == {5, 30, 40}
  {
    hide NetworkAt;
    NetworksOfFour();
  }

  lemma SelectedOfFour()
    ensures Selected(FOUR, {10, 20, 30, 40}, 2, true) == {10, 20}
    ensures Selected(FIVE, {5, 10, 30, 40}, 2, true) == {5, 30}
  {
    hide First, Leaders, Elements;
    LeadersOfFour();
    var four, three := [10, 20, 30, 40], [5, 30, 40];
    ElementsOfList(10, 20, 30, 40, 0);
    ElementsOfList(5, 30, 40, 0, 0);
    PrefixIsFirst(four, Ascending(), 2);
    PrefixIsFirst(three, Ascending(), 2);
    assert four[..2] == [10, 20] && three[..2] == [5, 30];
  }

  /** A filtered answer that loses two bridges: the new one takes the place of the first bridge of its
      network and pushes another bridge out of the window. */
  lemma TwoCanBeDisplaced()
    ensures
      var before, after := Answer(FOUR, [], 25, 2, true), Answer(FIVE, [], 25, 2, true);
      && before.Some? && after.Some? && At(1, 0) != At(2, 0)
      && {At(1, 0), At(2, 0)} <= Lost(before.value, after.value)
  {
    hide Selected, Finish, Window, AllForcedKeys, At;
    NothingForced(FOUR, 25);
    NothingForced(FIVE, 25);
    WindowOfFour();
    WindowOfFive();
    assert Candidates(FOUR, [], 25, 2) == {10, 20, 30, 40};
    assert Candidates(FIVE, [], 25, 2) == {5, 10, 30, 40};
    SelectedOfFour();
    FinishHoldsSelected(FOUR, {10, 20, 30, 40}, 2, true);
    FinishHoldsSelected(FIVE, {5, 10, 30, 40}, 2, true);
    DifferentHosts();
    assert FOUR[10] == At(1, 0) && FOUR[20] == At(2, 0);
    assert FIVE[5] == At(1, 1) && FIVE[30] == At(3, 0);
  }

  lemma DifferentHosts()
    ensures At(1, 0) != At(2, 0)
    ensures At(1, 1) !in {At(1, 0), At(2, 0)} && At(3, 0) !in {At(1, 0), At(2, 0)}
  {
  }
}
