/** Which bridges the filters of a request admit (bridgedb/filters.py with bridgedb/bridgerequest.py), told
    by the fields of the bridge. */
module Admission {
  import opened Common
  import opened Text
  import opened BridgeData
  import opened Blocking
  import opened Filters
  import opened BridgeRequest

  /** Whether the filters of a request admit a bridge. */
  ghost predicate Admitted(h: Hmacs, b: Bridge, w: Wish)
  {
    PassesAll(h, Members(FiltersFor(w)), b)
  }

  // ---------------------------------------------------------------- by the fields

  /** A bridge counts for an IP version by its primary address, which counts for version 4 unless it is of
      version 6, and by every OR address that is of this version or is tagged with it. */
  ghost predicate CountsFor(b: Bridge, version: int)
  {
    || (b.address.Some? && b.address.value.version == version)
    || (version == 4 && !(b.address.Some? && b.address.value.version == 6))
    || exists a :: a in b.orAddresses &&
                   (a.version == version || (a.address.Some? && a.address.value.version == version))
  }

  ghost predicate NoneResistant(b: Bridge)
  {
    forall t :: t in b.transports ==> !t.probingResistant
  }

  /** The primary address is not blocked in a country. */
  ghost predicate Open(b: Bridge, c: string) { !AddressIsBlockedIn(b, c, b.address, b.orPort) }

  /** No transport with the name is blocked in a country. */
  ghost predicate NameOpen(b: Bridge, m: string, c: string)
  {
    forall t :: t in b.transports && t.methodname == m ==> !AddressIsBlockedIn(b, c, Some(t.address), t.port)
  }

  // ---------------------------------------------------------------- filter by filter

  lemma PassesEach(h: Hmacs, fs: seq<Filter>, b: Bridge)
    ensures PassesAll(h, Members(fs), b) <==> forall i :: 0 <= i < |fs| ==> Passes(h, fs[i], b)
  {
    hide Passes;
    forall i | 0 <= i < |fs|
      ensures fs[i] in Members(fs)
    {
    }
  }

  lemma AdmittedEach(h: Hmacs, b: Bridge, w: Wish)
    ensures
      var rest := if w.notBlockedIn != [] then CountryFilters(w, |w.notBlockedIn|)
                  else if LastTransport(w).Some? then [ByTransport(Method(w), w.ipVersion)]
                  else [ByIPv(w.ipVersion)];
      Admitted(h, b, w) <==>
        Passes(h, ByProbingResistance(Method(w), w.ipVersion), b) &&
        forall i :: 0 <= i < |rest| ==> Passes(h, rest[i], b)
  {
    hide Passes, CountryFilters, Method, LastTransport;
    PassesEach(h, FiltersFor(w), b);
    var rest := FiltersFor(w)[1..];
    assert forall i :: 0 <= i < |rest| ==> rest[i] == FiltersFor(w)[i + 1];
    assert forall i :: 1 <= i < |FiltersFor(w)| ==> FiltersFor(w)[i] == rest[i - 1];
  }

  lemma CountsForByTag(b: Bridge, version: int)
    requires version == 4 || version == 6
    ensures HasIPv(version, b) <==> CountsFor(b, version)
  {
    var primary := OrAddress(b.address, b.orPort, if IsIPv(6, b.address) then 6 else 4);
    assert AllVanillaAddresses(b)[|b.orAddresses|] == primary;
    assert forall a :: a in AllVanillaAddresses(b) <==> a in b.orAddresses || a == primary;
  }

  lemma BlockedInLower(b: Bridge, c: string, m: string)
    ensures TransportIsBlockedIn(b, Lower(c), m) == TransportIsBlockedIn(b, c, m)
    ensures forall a, p :: AddressIsBlockedIn(b, Lower(c), a, p) == AddressIsBlockedIn(b, c, a, p)
  {
    LowerIdempotent(c);
  }

  /** Neither countries nor transports need be spelled in lower case. */
  lemma SpellingDoesNotMatter(b: Bridge, c: string, c': string, m: string, m': string)
    requires Lower(c) == Lower(c') && Lower(m) == Lower(m')
    ensures TransportIsBlockedIn(b, c, m) == TransportIsBlockedIn(b, c', m')
    ensures IsBlockedIn(b, c) == IsBlockedIn(b, c')
  {
  }

  lemma CountryPasses(h: Hmacs, b: Bridge, c: string, m: string, v: int)
    requires m != "" && Lower(m) == m
    ensures Passes(h, ByNotBlockedIn(Lower(c), m, v), b) <==>
      if m == "vanilla" then HasIPv(v, b) && Open(b, c) else HasTransport(m, v, b) && NameOpen(b, m, c)
  {
    hide AddressIsBlockedIn, HasIPv, HasTransport;
    BlockedInLower(b, c, m);
  }

  lemma CountriesPass(h: Hmacs, b: Bridge, w: Wish)
    requires Clean(w)
    ensures
      var m, countries := Method(w), w.notBlockedIn;
      (forall i :: 0 <= i < |countries| ==> Passes(h, CountryFilters(w, |countries|)[i], b)) <==>
        countries == [] ||
        if m == "vanilla" then HasIPv(w.ipVersion, b) && forall c :: c in countries ==> Open(b, c)
        else HasTransport(m, w.ipVersion, b) && forall c :: c in countries ==> NameOpen(b, m, c)
  {
    hide HasIPv, HasTransport, Passes, Method, Open, NameOpen;
    var m, v, countries := Method(w), w.ipVersion, w.notBlockedIn;
    var fs := CountryFilters(w, |countries|);
    MethodIsLower(w);
    forall i | 0 <= i < |countries|
      ensures fs[i] == ByNotBlockedIn(Lower(countries[i]), m, v)
      ensures Passes(h, fs[i], b) <==>
        if m == "vanilla" then HasIPv(v, b) && Open(b, countries[i])
        else HasTransport(m, v, b) && NameOpen(b, m, countries[i])
    {
      CountryPasses(h, b, countries[i], m, v);
    }
    forall c | c in countries
      ensures exists i :: 0 <= i < |fs| && c == countries[i] && fs[i] == ByNotBlockedIn(Lower(c), m, v)
    {
    }
    assert countries != [] ==> countries[0] in countries;
  }

  lemma MethodIsLower(w: Wish)
    requires Clean(w)
    ensures Lower(Method(w)) == Method(w) && Method(w) != ""
  {
    LowerVanilla();
    if LastTransport(w).Some? {
      LowerIdempotent(LastTransport(w).value);
      MethodIsWord(w);
    }
  }

  // ---------------------------------------------------------------- request by request

  /** A request that names no transport admits the bridges that count for its IP version, have no
      probing-resistant transport, and are open at their primary address in all its countries. */
  lemma VanillaAdmission(h: Hmacs, b: Bridge, w: Wish)
    requires Clean(w) && w.transports == []
    ensures Admitted(h, b, w) <==>
      CountsFor(b, w.ipVersion) && NoneResistant(b) && forall c :: c in w.notBlockedIn ==> Open(b, c)
  {
    hide Passes, Admitted;
    AdmittedEach(h, b, w);
    CountsForByTag(b, w.ipVersion);
    CountriesPass(h, b, w);
    ResistancePasses(h, b, "vanilla", w.ipVersion);
    hide CountsFor, Open, HasIPv;
    assert Passes(h, ByIPv(w.ipVersion), b) == HasIPv(w.ipVersion, b) by { VersionPasses(h, b, w.ipVersion); }
  }

  lemma VersionPasses(h: Hmacs, b: Bridge, v: int)
    ensures Passes(h, ByIPv(v), b) == HasIPv(v, b)
  {
  }

  lemma TransportPasses(h: Hmacs, b: Bridge, m: string, v: int)
    ensures Passes(h, ByTransport(m, v), b) == HasTransport(m, v, b)
  {
  }

  lemma ResistancePasses(h: Hmacs, b: Bridge, m: string, v: int)
    ensures Passes(h, ByProbingResistance(m, v), b) <==>
      (m == "vanilla" ==> HasIPv(v, b)) && (m in {"scramblesuit", "obfs4"} || NoneResistant(b))
  {
  }

  /** A request for a transport other than "vanilla", in any case, admits the bridges that have it in the
      IP version of the request, none of whose transports with this name is blocked in any of its
      countries, and of which no transport is probing-resistant unless ScrambleSuit or obfs4 is asked
      for. Only the last transport that is named matters. */
  lemma TransportAdmission(h: Hmacs, b: Bridge, w: Wish, earlier: seq<string>, pt: string)
    requires Clean(w) && w.transports == earlier + [pt] && Lower(pt) != "vanilla"
    ensures
      var m := Lower(pt);
      Admitted(h, b, w) <==>
        && (exists t :: t in b.transports && t.methodname == m && t.address.version == w.ipVersion)
        && (forall c :: c in w.notBlockedIn ==> NameOpen(b, m, c))
        && (m in {"scramblesuit", "obfs4"} || NoneResistant(b))
  {
    hide Passes, Admitted, NoneResistant, HasIPv;
    var m := Lower(pt);
    assert Method(w) == m;
    AdmittedEach(h, b, w);
    CountriesPass(h, b, w);
    ResistancePasses(h, b, m, w.ipVersion);
    TransportPasses(h, b, m, w.ipVersion);
  }

  /** A request that spells out "vanilla" admits what a request without a transport does, except that it
      also wants a transport of this name if it names no country. */
  lemma SpelledOutVanillaAdmission(h: Hmacs, b: Bridge, w: Wish, earlier: seq<string>, pt: string)
    requires Clean(w) && w.transports == earlier + [pt] && Lower(pt) == "vanilla"
    ensures Admitted(h, b, w) <==>
      && CountsFor(b, w.ipVersion) && NoneResistant(b) && (forall c :: c in w.notBlockedIn ==> Open(b, c))
      && (w.notBlockedIn == [] ==>
            exists t :: t in b.transports && t.methodname == "vanilla" && t.address.version == w.ipVersion)
  {
    hide Passes, Admitted, NoneResistant, HasIPv;
    assert Method(w) == "vanilla";
    AdmittedEach(h, b, w);
    CountsForByTag(b, w.ipVersion);
    CountriesPass(h, b, w);
    ResistancePasses(h, b, "vanilla", w.ipVersion);
    TransportPasses(h, b, "vanilla", w.ipVersion);
    hide CountsFor;
  }

  /** A bridge with a probing-resistant transport is admitted only to requests whose last transport is
      ScrambleSuit or obfs4. */
  lemma ResistantBridgesAreGuarded(h: Hmacs, b: Bridge, w: Wish, t: Transport)
    requires Clean(w) && Admitted(h, b, w) && t in b.transports && t.probingResistant
    ensures w.transports != []
    ensures Lower(w.transports[|w.transports| - 1]) in {"scramblesuit", "obfs4"}
  {
    hide Admitted;
    var n := |w.transports|;
    if n == 0 {
      VanillaAdmission(h, b, w);
    } else {
      var earlier, pt := w.transports[..n - 1], w.transports[n - 1];
      assert w.transports == earlier + [pt];
      if Lower(pt) == "vanilla" {
        SpelledOutVanillaAdmission(h, b, w, earlier, pt);
      } else {
        TransportAdmission(h, b, w, earlier, pt);
      }
    }
  }

  /** The filter for a country without a transport, which no request makes: no address of the bridge at
      all is blocked there. */
  lemma CountryAlonePasses(h: Hmacs, b: Bridge, c: string, v: int)
    requires forall t :: t in b.transports ==> Lower(t.methodname) == t.methodname
    ensures Passes(h, ByNotBlockedIn(Lower(c), "", v), b) <==>
      && Open(b, c)
      && (forall a :: a in b.orAddresses ==> !AddressIsBlockedIn(b, c, a.address, a.port))
      && (forall t :: t in b.transports ==> !AddressIsBlockedIn(b, c, Some(t.address), t.port))
  {
    LowerIdempotent(c);
    hide Lower;
    BlockedInLower(b, c, "");
    BlockedInLower(b, Lower(c), "");
    var primary := OrAddress(b.address, b.orPort, if IsIPv(6, b.address) then 6 else 4);
    assert AllVanillaAddresses(b)[|b.orAddresses|] == primary;
    assert forall a :: a in AllVanillaAddresses(b) <==> a in b.orAddresses || a == primary;
    hide AddressIsBlockedIn;
  }
}
