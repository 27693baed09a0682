/** Which bridges a client of the web distributor gets (bridgedb/distributors/https/distributor.py):
    clients are grouped by network, known proxies apart, and bridges by subring. */
module HttpsDistributor {
  import opened Common
  import opened Storage
  import opened BridgeData
  import opened Subnets
  import opened Filters
  import opened BridgeRequest
  import opened Nearest
  import opened Windows
  import opened Answers
  import opened Hashring
  import opened FilteredSplitter

  // ---------------------------------------------------------------- areas and subrings

  const PROXY_SUBNETS := 4

  /** A text that getSubnet makes: a network, or one of the groups of known proxies. */
  datatype Area = Subnet(network: Network) | ProxyGroup(number: nat)

  function GetSubnet(a: Address, usingProxy: bool): Area
  {
    if usingProxy then ProxyGroup(a.bits % PROXY_SUBNETS + 1) else Subnet(NetworkOf(a))
  }

  /** The keyed HMAC functions of a distributor: the key that assigns bridges to subrings, the number
      of an area, the position of an area in an interval, and the order of bridges in a subring. */
  datatype Keyed = Keyed(
    assign: KeyId,
    area: Area -> nat,
    position: (string, Area) -> Digest,
    order: nat -> Fingerprint -> Digest)

  /** mapSubnetToSubring. */
  function SubringOfArea(keyed: Keyed, total: nat, proxySubring: nat, area: Area, usingProxy: bool): nat
    requires total > 0 && (proxySubring != 0 ==> total > 1)
  {
    if usingProxy then proxySubring
    else keyed.area(area) % (if proxySubring != 0 then total - 1 else total) + 1
  }

  /** The subring that a bridge belongs to. */
  function SubringOfBridge(h: Hmacs, keyed: Keyed, total: nat, fp: Fingerprint): (i: nat)
    requires total > 0
    ensures 1 <= i <= total
  {
    h.position(keyed.assign, fp) % total + 1
  }

  /** A bridge passes the filter of exactly one of the subrings. */
  lemma ExactlyOneSubring(h: Hmacs, keyed: Keyed, total: nat, b: Bridge)
    requires total > 0
    ensures exists i :: 1 <= i <= total && Passes(h, BySubring(keyed.assign, i, total), b)
    ensures forall i, j ::
      (Passes(h, BySubring(keyed.assign, i, total), b) && Passes(h, BySubring(keyed.assign, j, total), b) ==>
         i == j)
  {
    var i := SubringOfBridge(h, keyed, total, b.fingerprint);
    assert Passes(h, BySubring(keyed.assign, i, total), b);
  }

  /** Direct clients share an area exactly when their addresses have the same 16 leading bits
      (version 4) or 32 leading bits (version 6). */
  lemma AreasAreNetworks(version: int, p: nat, x: nat, q: nat, y: nat)
    requires
      var hosts := if version == 4 then 0x1_0000 else 0x1_0000_0000_0000_0000_0000_0000;
      x < hosts && y < hosts
    ensures
      var hosts := if version == 4 then 0x1_0000 else 0x1_0000_0000_0000_0000_0000_0000;
      var a, b := Address(version, p * hosts + x), Address(version, q * hosts + y);
      (GetSubnet(a, false) == GetSubnet(b, false) <==> p == q)
  {
    var hosts := if version == 4 then 0x1_0000 else 0x1_0000_0000_0000_0000_0000_0000;
    assert (p * hosts + x) / hosts == p && (q * hosts + y) / hosts == q;
  }

  /** Direct clients of one network share a subring, which is never the one for proxies. */
  lemma NeighboursShareSubring(keyed: Keyed, total: nat, proxySubring: nat, a: Address, b: Address)
    requires total > 0 && (proxySubring != 0 ==> total > 1 && proxySubring == total)
    requires NetworkOf(a) == NetworkOf(b)
    ensures
      var i := SubringOfArea(keyed, total, proxySubring, GetSubnet(a, false), false);
      1 <= i <= total && i != proxySubring &&
      i == SubringOfArea(keyed, total, proxySubring, GetSubnet(b, false), false)
  {
  }

  /** Known proxies share an area exactly when their addresses leave the same remainder modulo four, and
      never with a direct client. */
  lemma ProxyAreasAreRemainders(a: Address, b: Address)
    ensures GetSubnet(a, true) == GetSubnet(b, true) <==> a.bits % 4 == b.bits % 4
    ensures GetSubnet(a, true) != GetSubnet(b, false)
  {
  }

  /** However many proxies a client uses, there are at most four places to ask from in an interval. */
  lemma FourProxyAreas(clients: set<Address>)
    ensures |set a | a in clients :: GetSubnet(a, true)| <= 4
  {
    var groups := {ProxyGroup(1), ProxyGroup(2), ProxyGroup(3), ProxyGroup(4)};
    var areas := set a | a in clients :: GetSubnet(a, true);
    assert areas <= groups;
    SubsetSize(areas, groups);
  }

  /** bridgesPerResponse (bridgedb/distribute.py:165-168, 253-271). */
  function PerResponse(length: nat): nat
  {
    if length < 20 then 1 else if length < 100 then 2 else 3
  }

  // ---------------------------------------------------------------- the distributor

  /** The bridges of an answer, or the exception that takes its place: ValueError for a client
      address that does not parse, KeyError for a key whose bridge was removed. */
  datatype Response = Bridges(list: seq<Bridge>) | InvalidAddress | LostBridge

  ghost function Fingerprints(bs: seq<Bridge>): set<Fingerprint> { set b | b in bs :: b.fingerprint }

  /** The filter sets of prepopulateRings for one IP version and the first n subrings. */
  ghost function PrepopulatedSets(keyed: Keyed, total: nat, ipVersion: int, n: nat): set<set<Filter>>
  {
    if n == 0 then {}
    else
      PrepopulatedSets(keyed, total, ipVersion, n - 1) + {{ByIPv(ipVersion), BySubring(keyed.assign, n, total)}}
  }

  lemma OneMoreSet(keyed: Keyed, total: nat, ipVersion: int, n: nat)
    ensures PrepopulatedSets(keyed, total, ipVersion, 0) == {}
    ensures n > 0 ==>
      var one := {ByIPv(ipVersion), BySubring(keyed.assign, n, total)};
      PrepopulatedSets(keyed, total, ipVersion, n) == PrepopulatedSets(keyed, total, ipVersion, n - 1) + {one}
  {
  }

  /** They are one for each subring. */
  lemma {:induction false} PrepopulatedSetsAre(keyed: Keyed, total: nat, ipVersion: int, n: nat, fs: set<Filter>)
    ensures fs in PrepopulatedSets(keyed, total, ipVersion, n) <==>
      exists i :: 1 <= i <= n && fs == {ByIPv(ipVersion), BySubring(keyed.assign, i, total)}
  {
    if n > 0 {
      PrepopulatedSetsAre(keyed, total, ipVersion, n - 1, fs);
    }
  }

  /** What the same request gets from a ring that is built by a scan just for it. */
  ghost function FreshAnswer(bridges: map<Fingerprint, Bridge>, h: Hmacs, fs: set<Filter>,
                             hmac: Fingerprint -> Digest, wants: seq<Want>, pos: nat): Option<seq<Bridge>>
    requires NoCollisions(hmac, bridges.Keys)
  {
    var ring := Scan(bridges, h, fs, hmac);
    Answer(ring, wants, pos, PerResponse(|ring|), true)
  }

  lemma FreshAnswerExists(bridges: map<Fingerprint, Bridge>, h: Hmacs, fs: set<Filter>,
                          hmac: Fingerprint -> Digest, wants: seq<Want>, pos: nat)
    requires NoCollisions(hmac, bridges.Keys)
    ensures FreshAnswer(bridges, h, fs, hmac, wants, pos).Some?
  {
    var ring := Scan(bridges, h, fs, hmac);
    CandidatesAreKeys(ring, wants, pos, PerResponse(|ring|));
  }

  /** A client gets one bridge from a ring of fewer than 20 bridges, two from one of fewer than 100 and
      three from a larger one, in different networks, or fewer if the keys to choose from lie in fewer
      networks. */
  lemma HowManyBridges(bridges: map<Fingerprint, Bridge>, h: Hmacs, fs: set<Filter>,
                       hmac: Fingerprint -> Digest, wants: seq<Want>, pos: nat, n: nat)
    requires NoCollisions(hmac, bridges.Keys)
    requires
      var size := |Scan(bridges, h, fs, hmac)|;
      (n == 1 && size < 20) || (n == 2 && 20 <= size < 100) || (n == 3 && 100 <= size)
    ensures
      var ring, answer := Scan(bridges, h, fs, hmac), FreshAnswer(bridges, h, fs, hmac, wants, pos);
      var chosen := Candidates(ring, wants, pos, n);
      && answer.Some? && chosen <= ring.Keys && Diverse(answer.value)
      && |answer.value| == Min(n, |NetworksAt(ring, chosen)|)
  {
    hide Candidates, Diverse, NetworksAt, Scan, Answer;
    AnswerIsDiverse(Scan(bridges, h, fs, hmac), wants, pos, n);
  }

  /** Filter sets with two subring filters let no bridge pass, so the order of their rings does not
      matter. */
  lemma TwoSubringsAreEmpty(bridges: map<Fingerprint, Bridge>, h: Hmacs, fs: set<Filter>,
                            hmac: Fingerprint -> Digest, key: KeyId, total: nat, i: nat, j: nat)
    requires NoCollisions(hmac, bridges.Keys)
    requires BySubring(key, i, total) in fs && BySubring(key, j, total) in fs && i != j
    ensures Scan(bridges, h, fs, hmac) == map[]
  {
    forall fp | fp in bridges
      ensures !PassesAll(h, fs, bridges[fp])
    {
      assert !(Passes(h, BySubring(key, i, total), bridges[fp]) && Passes(h, BySubring(key, j, total), bridges[fp]));
    }
  }

  lemma PassersAreOfSubring(h: Hmacs, keyed: Keyed, total: nat, fs: set<Filter>, i: nat, b: Bridge)
    requires total > 0 && BySubring(keyed.assign, i, total) in fs && PassesAll(h, fs, b)
    ensures SubringOfBridge(h, keyed, total, b.fingerprint) == i
  {
    assert Passes(h, BySubring(keyed.assign, i, total), b);
  }

  class HTTPSDistributor {
    const cache: FilterCache
    const keyed: Keyed
    const parse: string -> Option<Address>
    const answerParameters: seq<Want>
    const totalSubrings: nat
    const proxySubring: nat
    const hashring: FilteredBridgeSplitter
    var proxies: set<Address>
    ghost var toDirect: set<Fingerprint>
    ghost var toProxies: set<Fingerprint>

    ghost predicate Shape()
    {
      && totalSubrings > 0 && (proxySubring == 0 || (proxySubring == totalSubrings && totalSubrings > 1))
      && hashring.h == cache.h && keyed.assign in cache.h.keys
      && (forall i :: NoCollisions(keyed.order(i), hashring.ids))
    }

    /** Every cached ring is for one of the subrings and in the order of that subring. */
    ghost predicate InSubring(fs: set<Filter>, ring: BridgeRing)
    {
      ring.wants == answerParameters &&
      exists i :: BySubring(keyed.assign, i, totalSubrings) in fs && ring.hmac == keyed.order(i)
    }

    /** Bridges that went to proxies are those of the proxy subring, the others are of others. */
    ghost predicate Separated()
      requires Shape()
      reads this
    {
      && (forall fp :: fp in toDirect ==>
            SubringOfBridge(cache.h, keyed, totalSubrings, fp) != proxySubring)
      && (forall fp :: fp in toProxies ==>
            SubringOfBridge(cache.h, keyed, totalSubrings, fp) == proxySubring)
    }

    ghost predicate Valid()
      reads this, cache, hashring, hashring.Rings()
    {
      && Shape() && cache.Valid() && hashring.Valid() && Separated() && {this, cache} !! hashring.Rings()
      && (forall fs :: fs in hashring.filterRings ==> InSubring(fs, hashring.filterRings[fs].ring))
    }

    /** Whether a client's address is in the ProxySet, which keeps addresses in their canonical form. */
    predicate IsKnownProxy(client: string)
      reads this
    {
      parse(client).Some? && parse(client).value in proxies
    }

    constructor (totalSubrings: nat, keyed: Keyed, proxies: set<Address>, answerParameters: seq<Want>,
                 cache: FilterCache, parse: string -> Option<Address>, ghost ids: set<Fingerprint>)
      requires totalSubrings > 0 && cache.Valid() && keyed.assign in cache.h.keys
      requires forall i :: NoCollisions(keyed.order(i), ids)
      ensures Valid() && hashring.Agrees() && fresh(hashring) && hashring.ids == ids
      ensures hashring.bridges == map[] && hashring.filterRings == map[]
      ensures this.cache == cache && this.keyed == keyed && this.parse == parse
      ensures this.answerParameters == answerParameters
      ensures this.proxies == proxies && toDirect == {} && toProxies == {}
      ensures this.totalSubrings == totalSubrings + if proxies != {} then 1 else 0
      ensures proxySubring == if proxies != {} then this.totalSubrings else 0
    {
      this.cache, this.keyed, this.parse, this.answerParameters := cache, keyed, parse, answerParameters;
      this.proxies := proxies;
      if proxies != {} {
        this.totalSubrings := totalSubrings + 1;
        proxySubring := totalSubrings + 1;
      } else {
        this.totalSubrings := totalSubrings;
        proxySubring := 0;
      }
      hashring := new FilteredBridgeSplitter(cache.h, ids);
      toDirect, toProxies := {}, {};
    }

    /** _buildHashringFilters; the set of the filters is coherent and made by the factories. */
    method BuildHashringFilters(previous: seq<Filter>, subring: nat) returns (filters: seq<Filter>)
      requires Valid() && Coherent(cache.h, Members(previous)) && forall f :: f in previous ==> cache.Has(f)
      modifies cache
      ensures Valid() && filters == previous + [BySubring(keyed.assign, subring, totalSubrings)]
      ensures Coherent(cache.h, Members(filters)) && forall f :: f in Members(filters) ==> cache.Has(f)
      ensures forall f :: old(cache.Has(f)) ==> cache.Has(f)
      ensures old(hashring.Agrees()) ==> hashring.Agrees()
    {
      hide GoodTable, GoodTags, Coherent, Name, Normal;
      hide FilteredBridgeSplitter.Agrees, FilteredBridgeSplitter.Valid;
      var f := cache.MakeBySubring(keyed.assign, subring, totalSubrings);
      filters := previous + [f];
      SubringsKeepCoherence(cache.h, Members(previous), {f});
      assert Members(filters) == Members(previous) + {f};
    }

    /** A new ring for a subring with the filter function for a filter set; neither is cached yet. */
    method NewRing(fs: set<Filter>, subring: nat) returns (ring: BridgeRing, test: Cached)
      requires Valid() && Coherent(cache.h, fs) && forall f :: f in fs ==> cache.Has(f)
      requires fs != {}
      modifies cache
      ensures Valid() && (old(hashring.Agrees()) ==> hashring.Agrees())
      ensures fresh(ring.Repr()) && ring.IsExact() && ring.bridges == map[]
      ensures ring.hmac == keyed.order(subring) && ring.wants == answerParameters
      ensures Tests(cache.h, test, fs)
      ensures forall f :: old(cache.Has(f)) ==> cache.Has(f)
    {
      hide GoodTable, GoodTags, Coherent, NoCollisions, CachedPasses, PassesAll, Separated;
      hide FilterCache.Valid, FilterCache.Has, BridgeRing.IsExact;
      hide FilteredBridgeSplitter.Valid, FilteredBridgeSplitter.Agrees;
      ring := new BridgeRing(keyed.order(subring), answerParameters);
      test := cache.ByFilters(fs);
    }

    /** Builds, fills and caches the ring for a filter set, unless there is one. */
    method AddRingFor(fs: set<Filter>, subring: nat)
      requires Valid() && Coherent(cache.h, fs) && forall f :: f in fs ==> cache.Has(f)
      requires BySubring(keyed.assign, subring, totalSubrings) in fs
      modifies cache, hashring
      ensures Valid() && fs in hashring.filterRings
      ensures hashring.bridges == old(hashring.bridges)
      ensures hashring.filterRings.Keys == old(hashring.filterRings).Keys + {fs}
      ensures fresh(hashring.Rings() - old(hashring.Rings()))
      ensures forall f :: old(cache.Has(f)) ==> cache.Has(f)
      ensures old(hashring.Agrees()) ==> hashring.Agrees()
    {
      hide GoodTable, GoodTags, Coherent, NoCollisions, Tests, PassesAll, Separated;
      hide FilterCache.Valid, FilterCache.Has, BridgeRing.IsExact;
      hide FilteredBridgeSplitter.Valid, FilteredBridgeSplitter.Agrees;
      var ring, test := NewRing(fs, subring);
      hashring.IsWellStored();
      var added := hashring.AddRing(ring, fs, test, hashring.bridges);
    }

    /** Asks the ring for a filter set, which is cached before if need be. With rings that agree with
        a scan it makes no difference whether the ring was there: the answer is that of a ring built
        afresh. */
    method AnswerFrom(fs: set<Filter>, subring: nat, position: nat) returns (answer: Option<seq<Bridge>>)
      requires Valid() && Coherent(cache.h, fs) && forall f :: f in fs ==> cache.Has(f)
      requires BySubring(keyed.assign, subring, totalSubrings) in fs && position < DIGEST_SPACE
      modifies cache, hashring, hashring.Rings()
      ensures Valid() && hashring.bridges == old(hashring.bridges)
      ensures hashring.filterRings.Keys == old(hashring.filterRings).Keys + {fs}
      ensures fresh(hashring.Rings() - old(hashring.Rings()))
      ensures forall f :: old(cache.Has(f)) ==> cache.Has(f)
      ensures answer.Some? ==> forall b :: b in answer.value ==>
        PassesAll(cache.h, fs, b) && SubringOfBridge(cache.h, keyed, totalSubrings, b.fingerprint) == subring
      ensures NoCollisions(keyed.order(subring), hashring.bridges.Keys)
      ensures old(hashring.Agrees()) ==>
        && hashring.Agrees()
        && answer ==
             FreshAnswer(hashring.bridges, cache.h, fs, keyed.order(subring), answerParameters, position)
    {
      hide Valid, Coherent, NoCollisions, FreshAnswer, SubringOfBridge;
      hide FilterCache.Has, FilteredBridgeSplitter.Agrees;
      if fs !in hashring.filterRings {
        AddRingFor(fs, subring);
      }
      answer := AskCached(fs, subring, position);
    }

    method AskCached(fs: set<Filter>, subring: nat, position: nat) returns (answer: Option<seq<Bridge>>)
      requires Valid() && fs in hashring.filterRings
      requires BySubring(keyed.assign, subring, totalSubrings) in fs && position < DIGEST_SPACE
      modifies hashring.Rings()
      ensures Valid() && hashring.bridges == old(hashring.bridges)
      ensures answer.Some? ==> forall b :: b in answer.value ==>
        PassesAll(cache.h, fs, b) && SubringOfBridge(cache.h, keyed, totalSubrings, b.fingerprint) == subring
      ensures NoCollisions(keyed.order(subring), hashring.bridges.Keys)
      ensures old(hashring.Agrees()) ==>
        && hashring.Agrees()
        && answer ==
             FreshAnswer(hashring.bridges, cache.h, fs, keyed.order(subring), answerParameters, position)
    {
      hide GoodTable, GoodTags, CachedPasses, PassesAll, Separated, NoCollisions, FreshAnswer, Answer;
      hide FilterCache.Valid, FilteredBridgeSplitter.Valid, FilteredBridgeSplitter.Agrees;
      var ring := hashring.filterRings[fs].ring;
      var n := PerResponse(|ring.bridges|);
      CachedIsFresh(fs, subring, position);
      answer := hashring.Ask(fs, position, n);
      if answer.Some? {
        forall b | b in answer.value
          ensures SubringOfBridge(cache.h, keyed, totalSubrings, b.fingerprint) == subring
        {
          PassersAreOfSubring(cache.h, keyed, totalSubrings, fs, subring, b);
        }
      }
    }

    /** A cached ring that agrees with a scan answers like a fresh one. */
    lemma CachedIsFresh(fs: set<Filter>, subring: nat, position: nat)
      requires Valid() && fs in hashring.filterRings
      requires BySubring(keyed.assign, subring, totalSubrings) in fs
      ensures NoCollisions(keyed.order(subring), hashring.bridges.Keys)
      ensures hashring.Agrees() ==>
        var ring := hashring.filterRings[fs].ring;
        Answer(ring.bridges, ring.wants, position, PerResponse(|ring.bridges|), true) ==
          FreshAnswer(hashring.bridges, cache.h, fs, keyed.order(subring), answerParameters, position)
    {
      hide GoodTable, GoodTags, NoCollisions, Scan, Answer, Separated;
      hide FilterCache.Valid, FilteredBridgeSplitter.Valid, FilteredBridgeSplitter.Agrees;
      hashring.StoredApart(keyed.order(subring));
      var ring := hashring.filterRings[fs].ring;
      var i :| BySubring(keyed.assign, i, totalSubrings) in fs && ring.hmac == keyed.order(i);
      if hashring.Agrees() {
        hashring.RingHoldsScan(fs);
        if i != subring {
          var key, total := keyed.assign, totalSubrings;
          TwoSubringsAreEmpty(hashring.bridges, cache.h, fs, keyed.order(i), key, total, i, subring);
          TwoSubringsAreEmpty(hashring.bridges, cache.h, fs, keyed.order(subring), key, total, i, subring);
        }
      }
    }

    method Insert(b: Bridge)
      requires Valid() && b.fingerprint in hashring.ids
      modifies hashring, hashring.Rings()
      ensures Valid() && hashring.filterRings == old(hashring.filterRings)
      ensures hashring.bridges ==
        if b.running then old(hashring.bridges)[b.fingerprint := b] else old(hashring.bridges)
      ensures old(hashring.Agrees()) ==>
        (hashring.Agrees() <==> b.running ==>
           forall fs :: fs in hashring.filterRings ==>
             Welcome(old(hashring.bridges), cache.h, fs, answerParameters, b))
    {
      hide GoodTable, GoodTags, Separated, NoCollisions, Welcome;
      hide FilterCache.Valid, FilteredBridgeSplitter.Valid, FilteredBridgeSplitter.Agrees;
      hashring.Insert(b);
    }

    /** What the pools do with a bridge that leaves this distributor: they remove it from the
        hashring. Separation survives; a ring that held the bridge may lose its answers. */
    method Remove(b: Bridge)
      requires Valid()
      modifies hashring, hashring.Rings()
      ensures Valid() && hashring.filterRings == old(hashring.filterRings)
      ensures hashring.bridges == old(hashring.bridges) - {b.fingerprint}
      ensures old(hashring.Agrees()) ==>
        (hashring.Agrees() <==> b.fingerprint in old(hashring.bridges) ==>
           forall fs :: fs in hashring.filterRings ==>
             !PassesAll(cache.h, fs, old(hashring.bridges)[b.fingerprint]))
    {
      hide GoodTable, GoodTags, Separated, NoCollisions, PassesAll;
      hide FilterCache.Valid, FilteredBridgeSplitter.Valid, FilteredBridgeSplitter.Agrees;
      hashring.Remove(b);
    }

    /** One ring for every subring and IP version. */
    method PrepopulateRings()
      requires Valid()
      modifies cache, hashring
      ensures Valid() && hashring.bridges == old(hashring.bridges)
      ensures fresh(hashring.Rings() - old(hashring.Rings()))
      ensures forall f :: old(cache.Has(f)) ==> cache.Has(f)
      ensures hashring.filterRings.Keys == old(hashring.filterRings).Keys +
        PrepopulatedSets(keyed, totalSubrings, 4, totalSubrings) +
        PrepopulatedSets(keyed, totalSubrings, 6, totalSubrings)
      ensures old(hashring.Agrees()) ==> hashring.Agrees()
    {
      hide Valid, FilterCache.Has, FilteredBridgeSplitter.Agrees, PrepopulatedSets;
      var versions := [4, 6];
      for k := 0 to |versions|
        invariant Valid() && hashring.bridges == old(hashring.bridges)
        invariant fresh(hashring.Rings() - old(hashring.Rings()))
        invariant forall f :: old(cache.Has(f)) ==> cache.Has(f)
        invariant hashring.filterRings.Keys == old(hashring.filterRings).Keys +
          (if k > 0 then PrepopulatedSets(keyed, totalSubrings, 4, totalSubrings) else {}) +
          (if k > 1 then PrepopulatedSets(keyed, totalSubrings, 6, totalSubrings) else {})
        invariant old(hashring.Agrees()) ==> hashring.Agrees()
      {
        PrepopulateFor(versions[k]);
      }
    }

    method PrepopulateFor(ipVersion: int)
      requires Valid() && (ipVersion == 4 || ipVersion == 6)
      modifies cache, hashring
      ensures Valid() && hashring.bridges == old(hashring.bridges)
      ensures fresh(hashring.Rings() - old(hashring.Rings()))
      ensures forall f :: old(cache.Has(f)) ==> cache.Has(f)
      ensures hashring.filterRings.Keys == old(hashring.filterRings).Keys +
        PrepopulatedSets(keyed, totalSubrings, ipVersion, totalSubrings)
      ensures old(hashring.Agrees()) ==> hashring.Agrees()
    {
      hide Valid, FilterCache.Has, FilteredBridgeSplitter.Agrees, Coherent, PrepopulatedSets, Name, Normal;
      OneMoreSet(keyed, totalSubrings, ipVersion, 0);
      for subring := 1 to totalSubrings + 1
        invariant Valid() && hashring.bridges == old(hashring.bridges)
        invariant fresh(hashring.Rings() - old(hashring.Rings()))
        invariant forall f :: old(cache.Has(f)) ==> cache.Has(f)
        invariant hashring.filterRings.Keys == old(hashring.filterRings).Keys +
          PrepopulatedSets(keyed, totalSubrings, ipVersion, subring - 1)
        invariant old(hashring.Agrees()) ==> hashring.Agrees()
      {
        PrepopulateOne(ipVersion, subring);
        OneMoreSet(keyed, totalSubrings, ipVersion, subring);
      }
    }

    method PrepopulateOne(ipVersion: int, subring: nat)
      requires Valid() && (ipVersion == 4 || ipVersion == 6)
      modifies cache, hashring
      ensures Valid() && hashring.bridges == old(hashring.bridges)
      ensures fresh(hashring.Rings() - old(hashring.Rings()))
      ensures forall f :: old(cache.Has(f)) ==> cache.Has(f)
      ensures hashring.filterRings.Keys == old(hashring.filterRings).Keys +
        {{ByIPv(ipVersion), BySubring(keyed.assign, subring, totalSubrings)}}
      ensures old(hashring.Agrees()) ==> hashring.Agrees()
    {
      hide FilteredBridgeSplitter.Agrees, FilteredBridgeSplitter.Valid, Coherent, GoodTable, GoodTags;
      var v := ByIPv(ipVersion);
      assert Members([v]) == {v} + {};
      PrepopulatedAreCoherent(cache.h, ipVersion, {});
      var filters := BuildHashringFilters([v], subring);
      var fs := set f | f in filters;
      assert fs == {v, BySubring(keyed.assign, subring, totalSubrings)};
      AddRingFor(fs, subring);
    }

    /** The part of getBridges between finding out about the client and the answer. */
    method AnswerClient(request: BridgeRequestBase, client: Address, usingProxy: bool, interval: string)
      returns (answer: Option<seq<Bridge>>)
      requires Valid() && request.Made(cache) && Coherent(cache.h, Members(request.filters))
      modifies request`filters, cache, hashring, hashring.Rings()
      ensures Valid() && hashring.bridges == old(hashring.bridges)
      ensures hashring.filterRings.Keys == old(hashring.filterRings).Keys + {Members(request.filters)}
      ensures fresh(hashring.Rings() - old(hashring.Rings()))
      ensures forall f :: old(cache.Has(f)) ==> cache.Has(f)
      ensures
        var area := GetSubnet(client, usingProxy);
        var subring := SubringOfArea(keyed, totalSubrings, proxySubring, area, usingProxy);
        && request.filters == old(request.filters) + [BySubring(keyed.assign, subring, totalSubrings)]
        && (answer.Some? ==> forall b :: b in answer.value ==>
              PassesAll(cache.h, Members(request.filters), b) &&
              SubringOfBridge(cache.h, keyed, totalSubrings, b.fingerprint) == subring)
        && NoCollisions(keyed.order(subring), hashring.bridges.Keys)
        && (old(hashring.Agrees()) ==>
              hashring.Agrees() && answer ==
              FreshAnswer(hashring.bridges, cache.h, Members(request.filters), keyed.order(subring),
                answerParameters, keyed.position(interval, area)))
    {
      hide Valid, Coherent, NoCollisions, FreshAnswer, SubringOfBridge, Words, Normal;
      hide FilterCache.Has, FilteredBridgeSplitter.Agrees;
      ShapeOfValid();
      var area := GetSubnet(client, usingProxy);
      var subring := SubringOfArea(keyed, totalSubrings, proxySubring, area, usingProxy);
      request.filters := BuildHashringFilters(request.filters, subring);
      var fs := set f | f in request.filters;
      RequestIsNoRing(hashring.filterRings, request);
      answer := AnswerFrom(fs, subring, keyed.position(interval, area));
    }

    /** Keeps the history of answers. */
    ghost method Record(client: Address, usingProxy: bool, sent: seq<Bridge>)
      requires Valid()
      requires forall b :: b in sent ==>
        SubringOfBridge(cache.h, keyed, totalSubrings, b.fingerprint) ==
          SubringOfArea(keyed, totalSubrings, proxySubring, GetSubnet(client, usingProxy), usingProxy)
      modifies this`toDirect, this`toProxies
      ensures Valid() && (old(hashring.Agrees()) ==> hashring.Agrees())
      ensures toProxies == if usingProxy then old(toProxies) + Fingerprints(sent) else old(toProxies)
      ensures toDirect == if usingProxy then old(toDirect) else old(toDirect) + Fingerprints(sent)
    {
      hide FilteredBridgeSplitter.Valid, FilteredBridgeSplitter.Agrees, FilterCache.Valid, SubringOfBridge;
      hide GetSubnet;
      if usingProxy {
        toProxies := toProxies + Fingerprints(sent);
      } else {
        toDirect := toDirect + Fingerprints(sent);
      }
    }

    /** Client separation: no bridge has ever gone both to a known proxy and to a direct client. */
    lemma SeparatedWhenValid()
      requires Valid()
      ensures toDirect !! toProxies
    {
    }

    lemma ShapeOfValid()
      requires Valid()
      ensures Shape() && {this, cache} !! hashring.Rings()
    {
    }

    /** The part of getBridges that follows when the client's address is known, with its history. */
    method Respond(request: BridgeRequestBase, client: Address, usingProxy: bool, interval: string)
      returns (response: Response)
      requires Valid() && request.Made(cache) && Coherent(cache.h, Members(request.filters))
      modifies this`toDirect, this`toProxies, request`filters, cache, hashring, hashring.Rings()
      ensures Valid() && hashring.bridges == old(hashring.bridges) && response != InvalidAddress
      ensures hashring.filterRings.Keys == old(hashring.filterRings).Keys + {Members(request.filters)}
      ensures fresh(hashring.Rings() - old(hashring.Rings()))
      ensures forall f :: old(cache.Has(f)) ==> cache.Has(f)
      ensures
        var area := GetSubnet(client, usingProxy);
        var subring := SubringOfArea(keyed, totalSubrings, proxySubring, area, usingProxy);
        && request.filters == old(request.filters) + [BySubring(keyed.assign, subring, totalSubrings)]
        && (response.Bridges? ==> forall b :: b in response.list ==>
              PassesAll(cache.h, Members(request.filters), b) &&
              SubringOfBridge(cache.h, keyed, totalSubrings, b.fingerprint) == subring)
        && NoCollisions(keyed.order(subring), hashring.bridges.Keys)
        && (old(hashring.Agrees()) ==>
              hashring.Agrees() && response.Bridges? &&
              Some(response.list) == FreshAnswer(hashring.bridges, cache.h, Members(request.filters),
                keyed.order(subring), answerParameters, keyed.position(interval, area)))
      ensures !response.Bridges? ==> toProxies == old(toProxies) && toDirect == old(toDirect)
      ensures response.Bridges? ==>
        var sent := Fingerprints(response.list);
        && toProxies == (if usingProxy then old(toProxies) + sent else old(toProxies))
        && toDirect == (if usingProxy then old(toDirect) else old(toDirect) + sent)
    {
      hide Valid, NoCollisions, FreshAnswer, Coherent, FilteredBridgeSplitter.Agrees, SubringOfBridge;
      hide Fingerprints;
      ShapeOfValid();
      var answer := AnswerClient(request, client, usingProxy, interval);
      ghost var area := GetSubnet(client, usingProxy);
      FreshAnswerExists(hashring.bridges, cache.h, Members(request.filters),
        keyed.order(SubringOfArea(keyed, totalSubrings, proxySubring, area, usingProxy)), answerParameters,
        keyed.position(interval, area));
      if answer.None? {
        return LostBridge;
      }
      Record(client, usingProxy, answer.value);
      return Bridges(answer.value);
    }

    /** The answer to a client. Known proxies get bridges of their own subring, everybody else gets
        bridges of the subring of their network; no bridge ever goes to both kinds of clients. */
    method GetBridges(request: BridgeRequestBase, interval: string) returns (response: Response)
      requires Valid() && request.Made(cache) && Coherent(cache.h, Members(request.filters))
      modifies this`toDirect, this`toProxies, request`filters, cache, hashring, hashring.Rings()
      ensures Valid() && toDirect !! toProxies && hashring.bridges == old(hashring.bridges)
      ensures fresh(hashring.Rings() - old(hashring.Rings()))
      ensures forall f :: old(cache.Has(f)) ==> cache.Has(f)
      ensures hashring.filterRings.Keys == old(hashring.filterRings).Keys +
        if hashring.bridges == map[] || parse(request.client).None? then {} else {Members(request.filters)}
      ensures hashring.bridges == map[] ==> response == Bridges([])
      ensures hashring.bridges != map[] && parse(request.client).None? ==> response == InvalidAddress
      ensures hashring.bridges != map[] && parse(request.client).Some? ==>
        var usingProxy := IsKnownProxy(request.client);
        var area := GetSubnet(parse(request.client).value, usingProxy);
        var subring := SubringOfArea(keyed, totalSubrings, proxySubring, area, usingProxy);
        && request.filters == old(request.filters) + [BySubring(keyed.assign, subring, totalSubrings)]
        && response != InvalidAddress
        && (response.Bridges? ==> forall b :: b in response.list ==>
              PassesAll(cache.h, Members(request.filters), b) &&
              SubringOfBridge(cache.h, keyed, totalSubrings, b.fingerprint) == subring)
        && NoCollisions(keyed.order(subring), hashring.bridges.Keys)
        && (old(hashring.Agrees()) ==>
              response.Bridges? &&
              Some(response.list) == FreshAnswer(hashring.bridges, cache.h, Members(request.filters),
                keyed.order(subring), answerParameters, keyed.position(interval, area)))
      ensures old(hashring.Agrees()) ==> hashring.Agrees()
      ensures !response.Bridges? ==> toProxies == old(toProxies) && toDirect == old(toDirect)
      ensures response.Bridges? ==>
        var sent := Fingerprints(response.list);
        if IsKnownProxy(request.client) then toProxies == old(toProxies) + sent && toDirect == old(toDirect)
        else toDirect == old(toDirect) + sent && toProxies == old(toProxies)
    {
      hide Valid, NoCollisions, FreshAnswer, Coherent, FilteredBridgeSplitter.Agrees, SubringOfBridge;
      hide ReprOf, BridgeRing.Repr, GetSubnet, NetworkOf, FilterCache.Has, Name, Normal, PassesAll;
      RequestIsNoRing(hashring.filterRings, request);
      ShapeOfValid();
      SeparatedWhenValid();
      if |hashring.bridges| == 0 {
        return Bridges([]);
      }
      var usingProxy := IsKnownProxy(request.client);
      var client := parse(request.client);
      if client.None? {
        return InvalidAddress;
      }
      response := Respond(request, client.value, usingProxy, interval);
      SeparatedWhenValid();
    }
  }

  lemma RequestIsNoRing(rings: map<set<Filter>, Entry>, request: BridgeRequestBase)
    ensures request !in ReprOf(rings)
  {
  }
}
