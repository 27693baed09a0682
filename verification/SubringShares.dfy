/** How the web distributor (bridgedb/distributors/https/distributor.py) spreads clients and bridges over
    its subrings, and which clients can reach which bridges. */
module SubringShares {
  import opened BridgeData
  import opened Residues
  import opened Filters
  import opened HttpsDistributor

  /** Known proxies have the last subring for themselves, if there are any. */
  predicate GoodShape(total: nat, proxySubring: nat)
  {
    total > 0 && (proxySubring == 0 || (proxySubring == total && total > 1))
  }

  /** The number of subrings for direct clients. */
  function Directs(total: nat, proxySubring: nat): (n: nat)
    requires GoodShape(total, proxySubring)
    ensures n > 0
  {
    if proxySubring == 0 then total else total - 1
  }

  /** The subrings for direct clients are asked from equally often: of any k * n areas with consecutive
      numbers, n being the number of these subrings, exactly k ask each of them. */
  lemma DirectSharesAreEqual(keyed: Keyed, total: nat, proxySubring: nat, i: nat, areas: seq<Area>, start: nat,
                             k: nat)
    requires GoodShape(total, proxySubring) && 1 <= i <= Directs(total, proxySubring)
    requires |areas| == k * Directs(total, proxySubring)
    requires forall j :: 0 <= j < |areas| ==> keyed.area(areas[j]) == start + j
    ensures
      var chosen := set j | 0 <= j < |areas| && SubringOfArea(keyed, total, proxySubring, areas[j], false) == i;
      |chosen| == k
  {
    var n := Directs(total, proxySubring);
    var chosen := set j | 0 <= j < |areas| && SubringOfArea(keyed, total, proxySubring, areas[j], false) == i;
    ResiduesAreEven(start, n, k, i - 1, i);
    assert forall j :: j in chosen <==> j in Hits(start, k * n, n, i - 1, i);
    assert chosen == Hits(start, k * n, n, i - 1, i);
  }

  /** So are the bridges: of k * total bridges with consecutive numbers exactly k belong to each subring,
      that for proxies included. */
  lemma BridgeSharesAreEqual(h: Hmacs, keyed: Keyed, total: nat, i: nat, bridges: seq<Bridge>, start: nat, k: nat)
    requires 1 <= i <= total && |bridges| == k * total
    requires forall j :: 0 <= j < |bridges| ==> h.position(keyed.assign, bridges[j].fingerprint) == start + j
    ensures
      var chosen := set j | 0 <= j < |bridges| && Passes(h, BySubring(keyed.assign, i, total), bridges[j]);
      |chosen| == k
  {
    var chosen := set j | 0 <= j < |bridges| && Passes(h, BySubring(keyed.assign, i, total), bridges[j]);
    ResiduesAreEven(start, total, k, i - 1, i);
    assert forall j :: j in chosen <==> j in Hits(start, k * total, total, i - 1, i);
    assert chosen == Hits(start, k * total, total, i - 1, i);
  }

  /** Which clients ask the subring of a bridge: direct clients whose area's number leaves the same
      remainder for the direct subrings as the bridge's number does for all, and known proxies exactly
      when the bridge's remainder is the last one. */
  lemma WhoReachesBridge(h: Hmacs, keyed: Keyed, total: nat, proxySubring: nat, client: Address,
                         usingProxy: bool, b: Bridge)
    requires GoodShape(total, proxySubring)
    ensures
      var subring := SubringOfArea(keyed, total, proxySubring, GetSubnet(client, usingProxy), usingProxy);
      var place := h.position(keyed.assign, b.fingerprint) % total;
      Passes(h, BySubring(keyed.assign, subring, total), b) <==>
        if usingProxy then proxySubring != 0 && place == total - 1
        else keyed.area(GetSubnet(client, false)) % Directs(total, proxySubring) == place
  {
  }

  /** No direct client reaches a bridge of the subring for proxies. Every other bridge is reached: of any
      n areas with consecutive numbers, n being the number of direct subrings, exactly one asks its
      subring. */
  lemma EveryBridgeIsReached(h: Hmacs, keyed: Keyed, total: nat, proxySubring: nat, b: Bridge, areas: seq<Area>,
                             start: nat)
    requires GoodShape(total, proxySubring) && |areas| == Directs(total, proxySubring)
    requires forall j :: 0 <= j < |areas| ==> keyed.area(areas[j]) == start + j
    ensures
      var reaching := set j | 0 <= j < |areas| &&
        Passes(h, BySubring(keyed.assign, SubringOfArea(keyed, total, proxySubring, areas[j], false), total), b);
      |reaching| == if Passes(h, BySubring(keyed.assign, proxySubring, total), b) then 0 else 1
  {
    var i := SubringOfBridge(h, keyed, total, b.fingerprint);
    var reaching := set j | 0 <= j < |areas| &&
      Passes(h, BySubring(keyed.assign, SubringOfArea(keyed, total, proxySubring, areas[j], false), total), b);
    var chosen := set j | 0 <= j < |areas| && SubringOfArea(keyed, total, proxySubring, areas[j], false) == i;
    assert reaching == chosen;
    if i == proxySubring {
      assert chosen == {};
    } else {
      DirectSharesAreEqual(keyed, total, proxySubring, i, areas, start, 1);
    }
  }
}
