/** What the subrings of a hashring force into the choice for an answer (bridgedb/bridgerings.py), told by
    the ports and flags of the bridges, and when it does not reach the answer. */
module Forced {
  import opened Common
  import opened BridgeData
  import opened Nearest
  import opened Windows
  import opened Answers
  import opened Disruption
  import opened Hashring

  /** The keys of the stable bridges in a ring. */
  function StableKeys(bridges: map<nat, Bridge>): set<nat>
  {
    set k | k in bridges && bridges[k].stable
  }

  /** The keys of the bridges in a ring that listen on a port. */
  function PortKeys(bridges: map<nat, Bridge>, port: nat): set<nat>
  {
    set k | k in bridges && bridges[k].orPort == port
  }

  lemma MatchingKeys(bridges: map<nat, Bridge>, port: nat, count: nat)
    ensures Matching(bridges, Stable(count)).Keys == StableKeys(bridges)
    ensures Matching(bridges, Port(port, count)).Keys == PortKeys(bridges, port)
  {
  }

  // ---------------------------------------------------------------- what is chosen from

  /** The subring of a want contributes the nearest keys of the bridges that it is for. */
  lemma SubringContributes(top: Contents, subs: seq<Contents>, wants: seq<Want>, pos: nat, n: nat, i: nat)
    requires Exact(top, subs, wants) && pos < DIGEST_SPACE && i < |wants|
    ensures
      var held, forced := Matching(top.bridges, wants[i]).Keys, Elements(SubKeys(subs[i], wants[i], pos));
      && forced == First(held, Clockwise(pos), wants[i].count)
      && forced <= held && forced <= ChosenKeys(top, subs, wants, pos, n)
      && |forced| == Min(wants[i].count, |held|)
  {
    hide First, Clockwise, SubKeys, Matching, Slice, Sort;
    var held := Matching(top.bridges, wants[i]).Keys;
    SubKeysOfIntact(subs[i], wants[i], pos);
    assert InSpace(held) by { HeldInSpace(subs[i]); }
    ClockwiseInjective(held, pos);
    FirstSize(held, Clockwise(pos), wants[i].count);
    FirstIsPart(held, Clockwise(pos), wants[i].count);
  }

  lemma HeldInSpace(c: Contents)
    requires Intact(c)
    ensures InSpace(c.bridges.Keys)
  {
  }

  lemma EnoughInCommon(forced: set<nat>, held: set<nat>, chosen: set<nat>)
    requires forced <= held && forced <= chosen
    ensures |forced| <= |held * chosen|
  {
    SubsetSize(forced, held * chosen);
  }

  /** A ring that is told to force stable bridges chooses answers from at least as many of them, or from
      all that there are; they are the nearest ones clockwise, and all keys of the subring are of stable
      bridges. */
  lemma StableAreChosen(top: Contents, subs: seq<Contents>, wants: seq<Want>, pos: nat, n: nat, i: nat, count: nat)
    requires Exact(top, subs, wants) && pos < DIGEST_SPACE && i < |wants| && wants[i] == Stable(count)
    ensures
      var held, chosen := StableKeys(top.bridges), ChosenKeys(top, subs, wants, pos, n);
      && |held * chosen| >= Min(count, |held|)
      && Elements(SubKeys(subs[i], wants[i], pos)) == First(held, Clockwise(pos), count)
      && First(held, Clockwise(pos), count) <= chosen
      && forall k :: k in First(held, Clockwise(pos), count) ==> top.bridges[k].stable
  {
    hide Intact, ChosenKeys, First, Matching;
    MatchingKeys(top.bridges, 0, count);
    SubringContributes(top, subs, wants, pos, n, i);
    EnoughInCommon(First(StableKeys(top.bridges), Clockwise(pos), count), StableKeys(top.bridges),
                   ChosenKeys(top, subs, wants, pos, n));
  }

  /** The same for bridges that listen on a port. */
  lemma PortsAreChosen(top: Contents, subs: seq<Contents>, wants: seq<Want>, pos: nat, n: nat, i: nat, port: nat,
                       count: nat)
    requires Exact(top, subs, wants) && pos < DIGEST_SPACE && i < |wants| && wants[i] == Port(port, count)
    ensures
      var held, chosen := PortKeys(top.bridges, port), ChosenKeys(top, subs, wants, pos, n);
      && |held * chosen| >= Min(count, |held|)
      && Elements(SubKeys(subs[i], wants[i], pos)) == First(held, Clockwise(pos), count)
      && First(held, Clockwise(pos), count) <= chosen
      && forall k :: k in First(held, Clockwise(pos), count) ==> top.bridges[k].orPort == port
  {
    hide Intact, ChosenKeys, First, Matching;
    MatchingKeys(top.bridges, port, count);
    SubringContributes(top, subs, wants, pos, n, i);
    EnoughInCommon(First(PortKeys(top.bridges, port), Clockwise(pos), count), PortKeys(top.bridges, port),
                   ChosenKeys(top, subs, wants, pos, n));
  }

  // ---------------------------------------------------------------- what reaches the answer

  /** The chosen keys that compete for an answer: all, or the smallest of each network. */
  ghost function Eligible(bridges: map<nat, Bridge>, chosen: set<nat>, filterBySubnet: bool): set<nat>
  {
    if filterBySubnet then Leaders(bridges, chosen) else chosen
  }

  /** A key that the truncation leaves in an answer of n bridges: fewer than n others are smaller. */
  ghost predicate Early(keys: set<nat>, k: nat, n: nat) { k in keys && |Smaller(keys, k)| < n }

  ghost function Smaller(keys: set<nat>, k: nat): set<nat> { set c | c in keys && c < k }

  lemma EarlyAreFirst(keys: set<nat>, n: nat)
    ensures forall k :: k in First(keys, Ascending(), n) <==> Early(keys, k, n)
  {
    forall k
      ensures k in First(keys, Ascending(), n) <==> Early(keys, k, n)
    {
      assert Below(keys, Ascending(), k) == Smaller(keys, k);
    }
  }

  /** The stable bridges of an answer are exactly those at the stable keys that are early enough among the
      keys that compete, whatever was forced; and the bridges with a port likewise. */
  lemma ForcedReachAnswerIff(bridges: map<nat, Bridge>, chosen: set<nat>, n: nat, filterBySubnet: bool, port: nat)
    requires chosen <= bridges.Keys
    ensures
      var answer := Finish(bridges, chosen, n, filterBySubnet);
      var keys := Eligible(bridges, chosen, filterBySubnet);
      && answer.Some?
      && (forall b :: b in answer.value && b.stable <==>
            exists k :: k in StableKeys(bridges) && Early(keys, k, n) && bridges[k] == b)
      && (forall b :: b in answer.value && b.orPort == port <==>
            exists k :: k in PortKeys(bridges, port) && Early(keys, k, n) && bridges[k] == b)
  {
    var keys := Eligible(bridges, chosen, filterBySubnet);
    assert Selected(bridges, chosen, n, filterBySubnet) == First(keys, Ascending(), n);
    hide Selected, Finish, Early, First;
    FinishHoldsSelected(bridges, chosen, n, filterBySubnet);
    EarlyAreFirst(keys, n);
    var selected := Selected(bridges, chosen, n, filterBySubnet);
    var answer := Finish(bridges, chosen, n, filterBySubnet).value;
    forall k | k in selected
      ensures bridges[k] in answer
    {
    }
  }

  function Plain(stable: bool): Bridge
  {
    Bridge("", Some(Address(4, 1)), 9001, [], [], map[], true, stable, "any")
  }

  const LATE := map[20 := Plain(false), 30 := Plain(false), 40 := Plain(true)]

  /** One stable bridge is to be forced into every answer, there is one, and the answer does not hold it:
      the forced key is chosen but two other keys are smaller. */
  lemma ForcedCanBeMissed()
    ensures
      var answer := Answer(LATE, [Stable(1)], 10, 1, false);
      && StableKeys(LATE) == {40} && 40 in Candidates(LATE, [Stable(1)], 10, 1)
      && answer.Some? && forall b :: b in answer.value ==> !b.stable
  {
    hide Answer, Candidates, Finish, StableKeys, Early;
    ChosenOfLate();
    ForcedReachAnswerIff(LATE, {20, 30, 40}, 1, false, 0);
    StableOfLate();
    NotEarly();
    assert Answer(LATE, [Stable(1)], 10, 1, false) == Finish(LATE, {20, 30, 40}, 1, false) by {
      AnswerIsFinish(LATE, [Stable(1)], 10, 1);
    }
  }

  lemma AnswerIsFinish(bridges: map<nat, Bridge>, wants: seq<Want>, pos: nat, n: nat)
    ensures Answer(bridges, wants, pos, n, false) == Finish(bridges, Candidates(bridges, wants, pos, n), n, false)
  {
  }

  lemma StableOfLate()
    ensures StableKeys(LATE) == {40} && LATE.Keys == {20, 30, 40}
  {
  }

  lemma NotEarly()
    ensures !Early({20, 30, 40}, 40, 1)
  {
    assert 20 in Smaller({20, 30, 40}, 40);
  }

  lemma OneWant(bridges: map<nat, Bridge>, w: Want, pos: nat)
    ensures AllForcedKeys(bridges, [w], pos) == ForcedKeys(bridges, w, pos)
  {
    hide ForcedKeys;
    assert [w][0] == w;
  }

  lemma ChosenOfLate()
    ensures Candidates(LATE, [Stable(1)], 10, 1) == {20, 30, 40}
  {
    hide First, AllForcedKeys, Window;
    WindowOfLate();
    OneWant(LATE, Stable(1), 10);
    MatchingKeys(LATE, 0, 1);
    StableOfLate();
    FirstOfFew({40}, Clockwise(10), 1);
  }

  lemma WindowOfLate()
    ensures Window(LATE.Keys, 10, 1) == {20, 30}
  {
    hide First, Elements;
    var three := [20, 30, 40];
    assert Increasing(three, Clockwise(10));
    hide Increasing, Clockwise;
    ElementsOfList(20, 30, 40, 0, 0);
    assert LATE.Keys == {20, 30, 40};
    PrefixIsFirst(three, Clockwise(10), 2);
    assert three[..2] == [20, 30];
  }
}
