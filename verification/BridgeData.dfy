/** A bridge as the rings, the filters and the line selection see it (bridgedb/bridges.py). */
module BridgeData {
  import opened Common
  import opened Storage

  /** An IP address: its version and its bits as a number. */
  datatype Address = Address(version: int, bits: nat)

  /** A pluggable transport. Method names are stored in lower case. probingResistant tells whether
      the configured list of probing-resistant transports names this one. */
  datatype Transport = Transport(methodname: string, address: Address, port: nat,
                                 probingResistant: bool)

  /** An (address, port, version) triple; the version is a tag of its own. */
  datatype OrAddress = OrAddress(address: Option<Address>, port: nat, version: int)

  /** The address:port pair under which blocks are recorded. */
  datatype BlockKey = BlockKey(address: Option<Address>, port: nat)

  datatype Bridge = Bridge(
    fingerprint: Fingerprint,
    address: Option<Address>,
    orPort: nat,
    orAddresses: seq<OrAddress>,
    transports: seq<Transport>,
    blockedIn: map<BlockKey, seq<string>>,
    running: bool,
    stable: bool,
    distributionRequest: string)

  /** bridgedb.parse.addr.isIPv. */
  predicate IsIPv(version: int, address: Option<Address>)
  {
    address.Some? && address.value.version == version
  }
}
