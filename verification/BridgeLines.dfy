/** Choosing the address of a bridge line, and the agreement between the filters that admit a
    bridge and the code that picks its address (bridgedb/bridges.py). */
module BridgeLines {
  import opened Common
  import opened Text
  import opened Arithmetic
  import opened BridgeData
  import opened Blocking
  import opened Filters
  import opened BridgeRequest
  import opened Admission

  // ---------------------------------------------------------------- selection

  /** getBridgeLine returns None, a line for a transport or for an address, or raises
      PluggableTransportUnavailable. */
  datatype Line =
    | NoLine
    | TransportLine(transport: Transport)
    | VanillaLine(address: OrAddress)
    | Unavailable

  function IfOf(t: Transport, m: string, v: int): seq<Transport>
  {
    if t.methodname == m && t.address.version == v then [t] else []
  }

  /** The transports of a name and an IP version, in order. */
  function Matching(ts: seq<Transport>, m: string, v: int): seq<Transport>
  {
    if ts == [] then [] else IfOf(ts[0], m, v) + Matching(ts[1..], m, v)
  }

  lemma {:induction false} MatchingHolds(ts: seq<Transport>, m: string, v: int)
    ensures forall t :: t in Matching(ts, m, v) <==> t in ts && t.methodname == m && t.address.version == v
  {
    if ts != [] {
      MatchingHolds(ts[1..], m, v);
    }
  }

  /** The transports among ts whose name is not blocked in any of the countries. */
  function Unblocked(b: Bridge, ts: seq<Transport>, countries: seq<string>): seq<Transport>
  {
    if ts == [] then []
    else
      (if forall c :: c in countries ==> !TransportIsBlockedIn(b, c, ts[0].methodname)
       then [ts[0]] else []) +
      Unblocked(b, ts[1..], countries)
  }

  /** _getTransportForRequest; position is the client's place in the hashring. The source indexes
      the list of matching transports by a number below the length of the unblocked ones. */
  function TransportForRequest(b: Bridge, w: Wish, desired: string, position: nat): Line
  {
    var ts := Matching(b.transports, desired, w.ipVersion);
    if ts == [] then Unavailable
    else
      var unblocked := Unblocked(b, ts, w.notBlockedIn);
      UnblockedLength(b, ts, w.notBlockedIn);
      if unblocked == [] then NoLine
      else TransportLine(ts[position % |unblocked|])
  }

  lemma {:induction false} UnblockedLength(b: Bridge, ts: seq<Transport>, countries: seq<string>)
    ensures |Unblocked(b, ts, countries)| <= |ts|
  {
    if ts != [] {
      UnblockedLength(b, ts[1..], countries);
    }
  }

  predicate UnblockedAddress(b: Bridge, w: Wish, a: OrAddress)
  {
    a.version == w.ipVersion &&
    forall c :: c in w.notBlockedIn ==> !AddressIsBlockedIn(b, c, a.address, a.port)
  }

  function UnblockedAddresses(b: Bridge, w: Wish, addresses: seq<OrAddress>): seq<OrAddress>
  {
    if addresses == [] then []
    else
      (if UnblockedAddress(b, w, addresses[0]) then [addresses[0]] else []) +
      UnblockedAddresses(b, w, addresses[1..])
  }

  lemma {:induction false} UnblockedAddressesHold(b: Bridge, w: Wish, addresses: seq<OrAddress>)
    ensures forall a :: a in UnblockedAddresses(b, w, addresses) <==> a in addresses && UnblockedAddress(b, w, a)
  {
    if addresses != [] {
      UnblockedAddressesHold(b, w, addresses[1..]);
    }
  }

  /** _getVanillaForRequest with _constructBridgeLine, which needs an address and a port. */
  function VanillaForRequest(b: Bridge, w: Wish, position: nat): Line
  {
    var addresses := UnblockedAddresses(b, w, AllVanillaAddresses(b));
    if addresses == [] then NoLine
    else
      var chosen := addresses[position % |addresses|];
      if chosen.address.None? || chosen.port == 0 then NoLine else VanillaLine(chosen)
  }

  /** getBridgeLine. */
  function BridgeLine(b: Bridge, w: Wish, valid: bool, position: nat): Line
  {
    if !valid then NoLine
    else match LastTransport(w)
      case Some(pt) => TransportForRequest(b, w, pt, position)
      case None => VanillaForRequest(b, w, position)
  }

  // ---------------------------------------------------------------- all or nothing

  /** Transports of one name are blocked together: the unblocked ones are all or none, so an index
      below their number finds an unblocked one. */
  lemma {:induction false} UnblockedAllOrNone(b: Bridge, ts: seq<Transport>, m: string, countries: seq<string>)
    requires forall t :: t in ts ==> t.methodname == m
    ensures Unblocked(b, ts, countries) ==
      if forall c :: c in countries ==> !TransportIsBlockedIn(b, c, m) then ts else []
  {
    if ts != [] {
      assert ts[0] in ts;
      UnblockedAllOrNone(b, ts[1..], m, countries);
      assert [ts[0]] + ts[1..] == ts;
    }
  }

  /** An index into a list that is as long as the unblocked one finds a transport of the name and
      the version that were asked for, and no address of it is blocked. */
  lemma TransportChosen(b: Bridge, w: Wish, desired: string, position: nat)
    requires Lower(desired) == desired
    ensures
      var line := TransportForRequest(b, w, desired, position);
      && (line == Unavailable <==> !HasTransport(desired, w.ipVersion, b))
      && (line.TransportLine? <==>
            HasTransport(desired, w.ipVersion, b) &&
            forall c :: c in w.notBlockedIn ==> !TransportIsBlockedIn(b, c, desired))
      && (line.TransportLine? ==> Fits(b, w, desired, line.transport))
  {
    var ts := Matching(b.transports, desired, w.ipVersion);
    MatchingHolds(b.transports, desired, w.ipVersion);
    UnblockedAllOrNone(b, ts, desired, w.notBlockedIn);
    if ts == [] {
      assert forall t :: t !in ts;
    } else {
      assert ts[0] in ts;
      var line := TransportForRequest(b, w, desired, position);
      if line.TransportLine? {
        assert line.transport in ts;
      }
    }
  }

  /** A transport that may be handed out for a wish. */
  ghost predicate Fits(b: Bridge, w: Wish, desired: string, t: Transport)
  {
    && t in b.transports && t.methodname == desired && t.address.version == w.ipVersion
    && forall c :: c in w.notBlockedIn ==> !AddressIsBlockedIn(b, c, Some(t.address), t.port)
  }

  // ---------------------------------------------------------------- admission

  /** Transport names as the setter of PluggableTransport stores them. */
  ghost predicate StoredInLowerCase(b: Bridge)
  {
    forall t :: t in b.transports ==> Lower(t.methodname) == t.methodname
  }

  lemma NoMembers<T>(s: seq<T>)
    ensures s == [] <==> forall t :: t !in s
  {
    if s != [] {
      assert s[0] in s;
    }
  }

  /** No transport is stored under a name that is not in lower case. */
  lemma OtherSpellingIsUnavailable(b: Bridge, w: Wish, pt: string, position: nat)
    requires StoredInLowerCase(b) && Lower(pt) != pt
    ensures TransportForRequest(b, w, pt, position) == Unavailable
  {
    assert forall t :: t in b.transports ==> t.methodname != pt;
    MatchingHolds(b.transports, pt, w.ipVersion);
    assert forall t :: t !in Matching(b.transports, pt, w.ipVersion);
    NoMembers(Matching(b.transports, pt, w.ipVersion));
  }

  /** For every transport other than "vanilla", an admitted bridge yields an unblocked line of the
      right transport and version exactly when the request spells the transport in lower case. */
  lemma AdmissionAnswersTransports(h: Hmacs, b: Bridge, w: Wish, pt: string, position: nat)
    requires Clean(w) && LastTransport(w) == Some(pt) && Lower(pt) != "vanilla"
    requires StoredInLowerCase(b) && Admitted(h, b, w)
    ensures
      var line := BridgeLine(b, w, true, position);
      if Lower(pt) == pt then line.TransportLine? && Fits(b, w, pt, line.transport)
      else line == Unavailable
  {
    var n := |w.transports| - 1;
    assert w.transports == w.transports[..n] + [pt];
    TransportAdmission(h, b, w, w.transports[..n], pt);
    LowerIdempotent(pt);
    if Lower(pt) == pt {
      TransportChosen(b, w, pt, position);
    } else {
      OtherSpellingIsUnavailable(b, w, pt, position);
    }
  }

  /** A request that spells out "vanilla" is looked up among the transports. Whether or not the
      filters admit the bridge, it yields a line if and only if the spelling is in lower case and the
      bridge has a transport of this very name in the right version that is blocked nowhere. */
  lemma SpelledOutVanillaAnswers(b: Bridge, w: Wish, pt: string, position: nat)
    requires LastTransport(w) == Some(pt) && Lower(pt) == "vanilla" && StoredInLowerCase(b)
    ensures
      var line := BridgeLine(b, w, true, position);
      && (line.TransportLine? <==>
            pt == "vanilla" && HasTransport("vanilla", w.ipVersion, b) &&
            forall c :: c in w.notBlockedIn ==> !TransportIsBlockedIn(b, c, "vanilla"))
      && (line.TransportLine? ==> Fits(b, w, "vanilla", line.transport))
      && (line == Unavailable <==> pt != "vanilla" || !HasTransport("vanilla", w.ipVersion, b))
      && !line.VanillaLine?
  {
    LowerVanilla();
    if pt == "vanilla" {
      TransportChosen(b, w, pt, position);
    } else {
      OtherSpellingIsUnavailable(b, w, pt, position);
    }
  }

  /** An admitted bridge for a transport that is not spelled in lower case. */
  lemma OtherSpellingCanFail(h: Hmacs, position: nat)
    ensures
      var b := Bridge("", Some(Address(4, 1)), 443, [],
                      [Transport("obfs4", Address(4, 1), 9001, true)], map[], true, true, "any");
      var w := Wish(["Obfs4"], [], 4);
      Clean(w) && StoredInLowerCase(b) && Admitted(h, b, w) && BridgeLine(b, w, true, position) == Unavailable
  {
    var t := Transport("obfs4", Address(4, 1), 9001, true);
    var b := Bridge("", Some(Address(4, 1)), 443, [], [t], map[], true, true, "any");
    var w := Wish(["Obfs4"], [], 4);
    assert Lower("Obfs4") == "obfs4" && Lower("obfs4") == "obfs4";
    assert t in b.transports;
    assert "Obfs4"[0] == 'O' && "obfs4"[0] == 'o';
    assert HasTransport("obfs4", 4, b);
    assert FiltersFor(w) == [ByProbingResistance("obfs4", 4), ByTransport("obfs4", 4)];
    OtherSpellingIsUnavailable(b, w, "Obfs4", position);
  }

  /** An address that may be handed out for a wish. */
  ghost predicate FitsVanilla(b: Bridge, w: Wish, a: OrAddress)
  {
    && a in AllVanillaAddresses(b) && a.port > 0
    && a.address.Some? && a.address.value.version == w.ipVersion
    && forall c :: c in w.notBlockedIn ==> !AddressIsBlockedIn(b, c, a.address, a.port)
  }

  /** Every vanilla address is there, carries its own version as tag, and has a port. */
  ghost predicate Consistent(b: Bridge)
  {
    forall a :: a in AllVanillaAddresses(b) ==>
      a.port > 0 && a.address.Some? && a.version == a.address.value.version
  }

  /** Whether the client at a position gets a fitting vanilla line. */
  ghost predicate GetsVanilla(b: Bridge, w: Wish, position: nat)
  {
    var line := BridgeLine(b, w, true, position);
    line.VanillaLine? && FitsVanilla(b, w, line.address)
  }

  /** An address that is there, has a port and is of the version of its tag. */
  predicate Sound(a: OrAddress)
  {
    a.address.Some? && a.port > 0 && a.address.value.version == a.version
  }

  lemma GetsVanillaWhenSound(b: Bridge, w: Wish, position: nat)
    requires LastTransport(w) == None
    ensures
      var addresses := UnblockedAddresses(b, w, AllVanillaAddresses(b));
      if addresses == [] then !GetsVanilla(b, w, position)
      else GetsVanilla(b, w, position) <==> Sound(addresses[position % |addresses|])
  {
    var addresses := UnblockedAddresses(b, w, AllVanillaAddresses(b));
    UnblockedAddressesHold(b, w, AllVanillaAddresses(b));
    if addresses != [] {
      assert addresses[position % |addresses|] in addresses;
    }
  }

  /** For any bridge whatever: every client of a vanilla request gets a fitting line if and only if
      some address with the right version tag is unblocked and all such addresses are sound. */
  lemma VanillaFitsIff(b: Bridge, w: Wish)
    requires LastTransport(w) == None
    ensures
      (forall position :: GetsVanilla(b, w, position)) <==>
      ((exists a :: a in AllVanillaAddresses(b) && UnblockedAddress(b, w, a)) &&
       forall a :: a in AllVanillaAddresses(b) && UnblockedAddress(b, w, a) ==> Sound(a))
  {
    hide GetsVanilla, Sound, UnblockedAddress, AllVanillaAddresses;
    var addresses := UnblockedAddresses(b, w, AllVanillaAddresses(b));
    UnblockedAddressesHold(b, w, AllVanillaAddresses(b));
    NoMembers(addresses);
    forall position: nat
      ensures addresses == [] ==> !GetsVanilla(b, w, position)
      ensures (forall a :: a in addresses ==> Sound(a)) && addresses != [] ==> GetsVanilla(b, w, position)
    {
      GetsVanillaWhenSound(b, w, position);
    }
    forall a | a in addresses
      ensures (forall position :: GetsVanilla(b, w, position)) ==> Sound(a)
    {
      var i :| 0 <= i < |addresses| && addresses[i] == a;
      SmallIndex(i, |addresses|);
      GetsVanillaWhenSound(b, w, i);
    }
    assert addresses == [] ==> !GetsVanilla(b, w, 0);
  }

  lemma SmallIndex(i: nat, n: nat)
    requires i < n
    ensures i % n == i
  {
  }

  /** An admitted bridge with consistent addresses yields a fitting vanilla line when the request
      names no country or asks for the version of the primary address; for the other version it
      does so exactly when one of its OR addresses of that version is unblocked everywhere. */
  lemma AdmissionAnswersVanilla(h: Hmacs, b: Bridge, w: Wish, position: nat)
    requires Clean(w) && LastTransport(w) == None
    requires Consistent(b) && Admitted(h, b, w)
    ensures
      var line := BridgeLine(b, w, true, position);
      && (line.VanillaLine? ==> FitsVanilla(b, w, line.address))
      && (line.VanillaLine? || line == NoLine)
      && (line.VanillaLine? <==>
            w.notBlockedIn == [] || IsIPv(w.ipVersion, b.address) ||
            exists a :: a in b.orAddresses && UnblockedAddress(b, w, a))
  {
    VanillaAdmission(h, b, w);
    var all := AllVanillaAddresses(b);
    var addresses := UnblockedAddresses(b, w, all);
    UnblockedAddressesHold(b, w, all);
    var primary := all[|all| - 1];
    assert primary in all;
    if addresses != [] {
      assert addresses[position % |addresses|] in addresses;
    }
    if w.notBlockedIn == [] {
      var a :| a in all && (a.version == w.ipVersion || IsIPv(w.ipVersion, a.address));
      assert a.version == a.address.value.version;
      assert IsIPv(w.ipVersion, a.address) <==> a.address.value.version == w.ipVersion;
      assert a in addresses;
    } else if IsIPv(w.ipVersion, b.address) {
      assert primary in addresses;
    } else if a :| a in b.orAddresses && UnblockedAddress(b, w, a) {
      assert a in all && a in addresses;
    } else {
      forall a | a in all
        ensures !UnblockedAddress(b, w, a)
      {
        assert a in b.orAddresses || a == primary;
      }
      NoMembers(addresses);
    }
  }

  /** A bridge that is admitted for IPv6 outside a country, whose only IPv6 address is blocked in
      that country: the filters looked at the primary address, the selection does not. */
  lemma OtherVersionCanFail(h: Hmacs, position: nat)
    ensures
      var v6 := Some(Address(6, 1));
      var b := Bridge("", Some(Address(4, 1)), 443, [OrAddress(v6, 443, 6)], [],
                      map[BlockKey(v6, 443) := ["cn"]], true, true, "any");
      var w := Wish([], ["cn"], 6);
      Consistent(b) && Admitted(h, b, w) && BridgeLine(b, w, true, position) == NoLine
  {
    var v6 := Some(Address(6, 1));
    var or6 := OrAddress(v6, 443, 6);
    var b := Bridge("", Some(Address(4, 1)), 443, [or6], [],
                    map[BlockKey(v6, 443) := ["cn"]], true, true, "any");
    var w := Wish([], ["cn"], 6);
    assert Lower("cn") == "cn";
    assert AllVanillaAddresses(b) == [or6, OrAddress(b.address, 443, 4)];
    assert or6 in AllVanillaAddresses(b);
    assert FiltersFor(w) == [ByProbingResistance("vanilla", 6), ByNotBlockedIn("cn", "vanilla", 6)];
    assert b.blockedIn[BlockKey(v6, 443)][0] == "cn";
    assert "cn" in w.notBlockedIn;
    assert AddressIsBlockedIn(b, "cn", v6, 443);
    forall a | a in AllVanillaAddresses(b)
      ensures !UnblockedAddress(b, w, a)
    {
    }
    UnblockedAddressesHold(b, w, AllVanillaAddresses(b));
    assert forall a :: a !in UnblockedAddresses(b, w, AllVanillaAddresses(b));
  }

  /** A request that spells out the transport "vanilla" with a country is admitted by the vanilla
      filters but looked up among the transports. */
  lemma SpelledOutVanillaCanFail(h: Hmacs, position: nat)
    ensures
      var b := Bridge("", Some(Address(4, 1)), 443, [], [], map[], true, true, "any");
      var w := Wish(["vanilla"], ["cn"], 4);
      Consistent(b) && Admitted(h, b, w) && BridgeLine(b, w, true, position) == Unavailable
  {
    var b := Bridge("", Some(Address(4, 1)), 443, [], [], map[], true, true, "any");
    var w := Wish(["vanilla"], ["cn"], 4);
    LowerVanilla();
    assert Lower("cn") == "cn";
    assert AllVanillaAddresses(b) == [OrAddress(b.address, 443, 4)];
    assert FiltersFor(w) == [ByProbingResistance("vanilla", 4), ByNotBlockedIn("cn", "vanilla", 4)];
    assert !HasProbingResistantPT(b);
  }

  /** Only valid requests get anything. */
  lemma InvalidRequestsGetNothing(b: Bridge, w: Wish, valid: bool, position: nat)
    ensures BridgeLine(b, w, valid, position) != NoLine ==> valid
  {
  }

  // ---------------------------------------------------------------- in turn

  lemma {:induction false} MatchingConcat(a: seq<Transport>, b: seq<Transport>, m: string, v: int)
    ensures Matching(a + b, m, v) == Matching(a, m, v) + Matching(b, m, v)
  {
    hide IfOf;
    if a == [] {
      assert a + b == b;
    } else {
      var head, tail := IfOf(a[0], m, v), Matching(a[1..], m, v);
      MatchingConcat(a[1..], b, m, v);
      assert (a + b)[1..] == a[1..] + b;
      assert head + (tail + Matching(b, m, v)) == head + tail + Matching(b, m, v);
    }
  }

  lemma {:induction false} UnblockedConcat(b: Bridge, w: Wish, p: seq<OrAddress>, q: seq<OrAddress>)
    ensures UnblockedAddresses(b, w, p + q) == UnblockedAddresses(b, w, p) + UnblockedAddresses(b, w, q)
  {
    if p == [] {
      assert p + q == q;
    } else {
      UnblockedConcat(b, w, p[1..], q);
      assert (p + q)[1..] == p[1..] + q;
    }
  }

  lemma IndexInTurn(i: nat, laps: nat, n: nat)
    requires i < n
    ensures (i + laps * n) % n == i
  {
    DivModUnique(i + laps * n, n, laps, i);
  }

  /** Clients get the transports of a bridge in turn, in the order in which it lists them: of any run of
      positions as long as the list, every unblocked transport that fits is told once. */
  lemma TransportsInTurn(b: Bridge, w: Wish, pt: string, before: seq<Transport>, t: Transport,
                         after: seq<Transport>, laps: nat)
    requires LastTransport(w) == Some(pt) && Lower(pt) == pt
    requires b.transports == before + [t] + after && t.methodname == pt && t.address.version == w.ipVersion
    requires forall c :: c in w.notBlockedIn ==> NameOpen(b, pt, c)
    ensures
      var i := |Matching(before, pt, w.ipVersion)|;
      var n := |Matching(b.transports, pt, w.ipVersion)|;
      i < n && BridgeLine(b, w, true, i + laps * n) == TransportLine(t)
  {
    hide Matching, Unblocked, TransportIsBlockedIn, AddressIsBlockedIn;
    var v, i := w.ipVersion, |Matching(before, pt, w.ipVersion)|;
    var ts := Matching(b.transports, pt, v);
    PlaceInMatching(before, t, after, pt, v);
    MatchingHolds(b.transports, pt, v);
    IndexInTurn(i, laps, |ts|);
    UnblockedAllOrNone(b, ts, pt, w.notBlockedIn);
    forall c | c in w.notBlockedIn
      ensures !TransportIsBlockedIn(b, c, pt)
    {
      OpenIsUnblocked(b, c, pt);
    }
  }

  lemma PlaceInMatching(before: seq<Transport>, t: Transport, after: seq<Transport>, m: string, v: int)
    requires t.methodname == m && t.address.version == v
    ensures
      var i, ts := |Matching(before, m, v)|, Matching(before + [t] + after, m, v);
      i < |ts| && ts[i] == t
  {
    assert Matching([t], m, v) == [t] by { assert [t][1..] == []; }
    hide Matching;
    MatchingConcat(before + [t], after, m, v);
    MatchingConcat(before, [t], m, v);
  }

  lemma OpenIsUnblocked(b: Bridge, c: string, pt: string)
    requires Lower(pt) == pt
    ensures NameOpen(b, pt, c) <==> !TransportIsBlockedIn(b, c, pt)
  {
  }

  /** Clients without a transport get the unblocked addresses in turn: the OR addresses in the order in
      which the bridge lists them, and then the primary address. */
  lemma AddressesInTurn(b: Bridge, w: Wish, before: seq<OrAddress>, a: OrAddress, after: seq<OrAddress>, laps: nat)
    requires LastTransport(w) == None && UnblockedAddress(b, w, a) && Sound(a)
    requires b.orAddresses + [OrAddress(b.address, b.orPort, if IsIPv(6, b.address) then 6 else 4)] ==
      before + [a] + after
    ensures
      var i, n := |UnblockedAddresses(b, w, before)|, |UnblockedAddresses(b, w, before + [a] + after)|;
      i < n && BridgeLine(b, w, true, i + laps * n) == VanillaLine(a)
  {
    hide UnblockedAddress;
    var i := |UnblockedAddresses(b, w, before)|;
    UnblockedConcat(b, w, before + [a], after);
    UnblockedConcat(b, w, before, [a]);
    assert UnblockedAddresses(b, w, [a]) == [a] by { assert [a][1..] == []; }
    var addresses := UnblockedAddresses(b, w, before + [a] + after);
    assert AllVanillaAddresses(b) == before + [a] + after;
    assert addresses[i] == a;
    IndexInTurn(i, laps, |addresses|);
  }

  // ---------------------------------------------------------------- recording blocks

  /** A bridge whose record of blocks grows. */
  class LiveBridge {
    var state: Bridge

    constructor (state: Bridge)
      ensures this.state == state
    {
      this.state := state;
    }

    /** _addBlockByKey: blocks exactly this key in this country, and nothing else changes. */
    method AddBlockByKey(key: BlockKey, countryCode: string)
      modifies this
      ensures state == old(state).(blockedIn := state.blockedIn)
      ensures forall c, a, p :: AddressIsBlockedIn(state, c, a, p) <==>
        AddressIsBlockedIn(old(state), c, a, p) ||
        (BlockKey(a, p) == key && Lower(c) == Lower(countryCode))
    {
      if key in state.blockedIn {
        state := state.(blockedIn := state.blockedIn[key := state.blockedIn[key] + [Lower(countryCode)]]);
      } else {
        state := state.(blockedIn := state.blockedIn[key := [Lower(countryCode)]]);
      }
    }
  }
}
