/** Which addresses of a bridge are blocked where (bridgedb/bridges.py). */
module Blocking {
  import opened Common
  import opened Text
  import opened BridgeData

  /** The OR addresses and, last, the primary address with the version tag it gets. */
  function AllVanillaAddresses(b: Bridge): seq<OrAddress>
  {
    b.orAddresses + [OrAddress(b.address, b.orPort, if IsIPv(6, b.address) then 6 else 4)]
  }

  predicate HasProbingResistantPT(b: Bridge)
  {
    exists t :: t in b.transports && t.probingResistant
  }

  predicate AddressIsBlockedIn(b: Bridge, country: string, address: Option<Address>, port: nat)
  {
    var key := BlockKey(address, port);
    key in b.blockedIn && Lower(country) in b.blockedIn[key]
  }

  /** Whether any transport with this name is blocked. */
  predicate TransportIsBlockedIn(b: Bridge, country: string, methodname: string)
  {
    exists t :: t in b.transports && t.methodname == Lower(methodname) &&
                AddressIsBlockedIn(b, country, Some(t.address), t.port)
  }

  predicate IsBlockedIn(b: Bridge, country: string)
  {
    (exists t :: t in b.transports && TransportIsBlockedIn(b, Lower(country), t.methodname)) ||
    (exists a :: a in AllVanillaAddresses(b) &&
                 AddressIsBlockedIn(b, Lower(country), a.address, a.port))
  }
}
