/** Keeping bridges in distinct subnets (filterDistinctSubnets of bridgedb/bridgerings.py). */
module Subnets {
  import opened BridgeData

  /** The /16 network of an IPv4 address, the /32 network of an IPv6 address. */
  datatype Network = Network(version: int, prefix: nat)

  const HOSTS_OF_16 := 0x1_0000
  const HOSTS_OF_32 := 0x1_0000_0000_0000_0000_0000_0000

  function NetworkOf(a: Address): Network
  {
    Network(a.version, if a.version == 4 then a.bits / HOSTS_OF_16 else a.bits / HOSTS_OF_32)
  }

  predicate InNetwork(a: Address, n: Network) { NetworkOf(a) == n }

  /** The greedy choice: a bridge is kept when it has an address in a network not seen yet. */
  function Greedy(bs: seq<Bridge>, seen: set<Network>): seq<Bridge>
  {
    if bs == [] then []
    else if bs[0].address.None? || NetworkOf(bs[0].address.value) in seen then Greedy(bs[1..], seen)
    else [bs[0]] + Greedy(bs[1..], seen + {NetworkOf(bs[0].address.value)})
  }

  function Networks(bs: seq<Bridge>): set<Network>
  {
    set b | b in bs && b.address.Some? :: NetworkOf(b.address.value)
  }

  lemma NetworksOfCons(b: Bridge, bs: seq<Bridge>)
    ensures Networks([b] + bs) ==
      Networks(bs) + if b.address.Some? then {NetworkOf(b.address.value)} else {}
  {
    assert forall c :: c in [b] + bs <==> c == b || c in bs;
  }

  /** All bridges have addresses, and no two are in the same network. */
  ghost predicate Diverse(bs: seq<Bridge>)
  {
    && (forall i :: 0 <= i < |bs| ==> bs[i].address.Some?)
    && (forall i, j :: 0 <= i < j < |bs| ==>
          NetworkOf(bs[i].address.value) != NetworkOf(bs[j].address.value))
  }

  lemma NoNetworks()
    ensures Networks([]) == {} && Diverse([])
  {
  }

  lemma DiverseCons(b: Bridge, bs: seq<Bridge>)
    requires Diverse(bs) && b.address.Some? && NetworkOf(b.address.value) !in Networks(bs)
    ensures Diverse([b] + bs)
  {
    forall j | 0 <= j < |bs|
      ensures NetworkOf(bs[j].address.value) != NetworkOf(b.address.value)
    {
      assert bs[j] in bs;
    }
  }

  /** Every kept bridge has an address, no two share a network with each other or with one seen
      before, and no network is lost: as many bridges are kept as there are new networks. */
  lemma {:induction false} GreedyIsDiverse(bs: seq<Bridge>, seen: set<Network>)
    ensures Diverse(Greedy(bs, seen))
    ensures Networks(Greedy(bs, seen)) == Networks(bs) - seen
    ensures |Greedy(bs, seen)| == |Networks(bs) - seen|
    decreases |bs|
  {
    hide Diverse, Networks, NetworkOf;
    NoNetworks();
    if bs != [] {
      var b, rest := bs[0], bs[1..];
      assert bs == [b] + rest;
      NetworksOfCons(b, rest);
      if b.address.None? || NetworkOf(b.address.value) in seen {
        GreedyIsDiverse(rest, seen);
        assert Networks(bs) - seen == Networks(rest) - seen;
      } else {
        var n := NetworkOf(b.address.value);
        var kept := Greedy(rest, seen + {n});
        GreedyIsDiverse(rest, seen + {n});
        NetworksOfCons(b, kept);
        DiverseCons(b, kept);
        assert Networks(kept) == Networks(rest) - (seen + {n});
        assert Networks(bs) - seen == Networks(kept) + {n};
        assert Greedy(bs, seen) == [b] + kept;
      }
    }
  }

  /** Whether a list keeps the order of another: its elements come from increasing places. */
  ghost predicate Embeds(part: seq<Bridge>, whole: seq<Bridge>)
  {
    part == [] ||
    (whole != [] &&
     (if part[0] == whole[0] then Embeds(part[1..], whole[1..]) else Embeds(part, whole[1..])))
  }

  lemma {:induction false} EmbedsInLonger(part: seq<Bridge>, b: Bridge, whole: seq<Bridge>)
    requires Embeds(part, whole)
    ensures Embeds(part, [b] + whole)
    decreases |whole|, 1
  {
    assert ([b] + whole)[1..] == whole;
    if part != [] && part[0] == b {
      if part[0] == whole[0] {
        EmbedsInLonger(part[1..], whole[0], whole[1..]);
        assert [whole[0]] + whole[1..] == whole;
      } else {
        EmbedsTail(part, whole);
      }
    }
  }

  lemma {:induction false} EmbedsTail(part: seq<Bridge>, whole: seq<Bridge>)
    requires Embeds(part, whole) && part != []
    ensures Embeds(part[1..], whole)
    decreases |whole|, 0
  {
    if part[0] == whole[0] {
      EmbedsInLonger(part[1..], whole[0], whole[1..]);
      assert [whole[0]] + whole[1..] == whole;
    } else {
      EmbedsTail(part, whole[1..]);
      EmbedsInLonger(part[1..], whole[0], whole[1..]);
      assert [whole[0]] + whole[1..] == whole;
    }
  }

  lemma {:induction false} GreedyKeepsOrder(bs: seq<Bridge>, seen: set<Network>)
    ensures Embeds(Greedy(bs, seen), bs)
    decreases |bs|
  {
    if bs != [] {
      assert bs == [bs[0]] + bs[1..];
      if bs[0].address.None? || NetworkOf(bs[0].address.value) in seen {
        GreedyKeepsOrder(bs[1..], seen);
        EmbedsInLonger(Greedy(bs[1..], seen), bs[0], bs[1..]);
      } else {
        GreedyKeepsOrder(bs[1..], seen + {NetworkOf(bs[0].address.value)});
      }
    }
  }

  /** A bridge with an address is rejected only when an earlier kept bridge shares its network. */
  lemma {:induction false} RejectedHasNeighbour(bs: seq<Bridge>, seen: set<Network>, i: nat)
    requires i < |bs| && bs[i].address.Some?
    requires NetworkOf(bs[i].address.value) !in seen
    ensures exists j :: 0 <= j <= i && bs[j] in Greedy(bs, seen) && bs[j].address.Some? &&
                        NetworkOf(bs[j].address.value) == NetworkOf(bs[i].address.value)
    decreases |bs|
  {
    var n := NetworkOf(bs[i].address.value);
    if bs[0].address.Some? && NetworkOf(bs[0].address.value) == n {
      assert bs[0] in Greedy(bs, seen);
    } else {
      var seen' := if bs[0].address.None? then seen else seen + {NetworkOf(bs[0].address.value)};
      assert bs[0].address.Some? && NetworkOf(bs[0].address.value) in seen ==> seen' == seen;
      RejectedHasNeighbour(bs[1..], seen', i - 1);
      var j :| 0 <= j <= i - 1 && bs[1..][j] in Greedy(bs[1..], seen') && bs[1..][j].address.Some? &&
        NetworkOf(bs[1..][j].address.value) == n;
      assert bs[j + 1] in Greedy(bs, seen);
    }
  }

  lemma {:induction false} GreedyChooses(bs: seq<Bridge>, seen: set<Network>, b: Bridge)
    requires b in Greedy(bs, seen)
    ensures b in bs
    decreases |bs|
  {
    if bs[0].address.None? || NetworkOf(bs[0].address.value) in seen {
      GreedyChooses(bs[1..], seen, b);
    } else if b != bs[0] {
      GreedyChooses(bs[1..], seen + {NetworkOf(bs[0].address.value)}, b);
    }
  }

  lemma {:induction false} GreedyAppend(bs: seq<Bridge>, b: Bridge, seen: set<Network>)
    ensures Greedy(bs + [b], seen) == Greedy(bs, seen) +
      if b.address.None? || NetworkOf(b.address.value) in seen + Networks(bs) then [] else [b]
    decreases |bs|
  {
    if bs == [] {
      assert bs + [b] == [b];
      assert [b][1..] == [];
      assert seen + Networks(bs) == seen;
    } else {
      var longer := bs + [b];
      assert longer[0] == bs[0] && longer[1..] == bs[1..] + [b];
      assert bs == [bs[0]] + bs[1..];
      NetworksOfCons(bs[0], bs[1..]);
      if bs[0].address.None? || NetworkOf(bs[0].address.value) in seen {
        GreedyAppend(bs[1..], b, seen);
        assert seen + Networks(bs) == seen + Networks(bs[1..]);
      } else {
        var n := NetworkOf(bs[0].address.value);
        GreedyAppend(bs[1..], b, seen + {n});
        assert seen + Networks(bs) == seen + {n} + Networks(bs[1..]);
      }
    }
  }
}
