/** What a client asks for, and the filters made from it (bridgedb/bridgerequest.py). */
module BridgeRequest {
  import opened Common
  import opened Text
  import opened BridgeData
  import opened Filters

  /** The parts of a request that its filters depend on. */
  datatype Wish = Wish(transports: seq<string>, notBlockedIn: seq<string>, ipVersion: int)

  /** The patterns that requests are matched against let only such texts through. */
  predicate Clean(w: Wish)
  {
    && (w.ipVersion == 4 || w.ipVersion == 6)
    && (forall t :: t in w.transports ==> IsWord(t) && t != "")
    && (forall c :: c in w.notBlockedIn ==> IsWord(c) && c != "")
  }

  /** justOnePTType: the last transport that was asked for. */
  function LastTransport(w: Wish): Option<string>
  {
    if w.transports == [] then None else Some(w.transports[|w.transports| - 1])
  }

  /** The method name that all filters of a request speak of. */
  function Method(w: Wish): string
  {
    match LastTransport(w)
    case None => "vanilla"
    case Some(pt) => Lower(pt)
  }

  /** The filters of a request, in the order in which they are added. */
  function FiltersFor(w: Wish): seq<Filter>
  {
    [ByProbingResistance(Method(w), w.ipVersion)] +
    if w.notBlockedIn != [] then CountryFilters(w, |w.notBlockedIn|)
    else if LastTransport(w).Some? then [ByTransport(Method(w), w.ipVersion)]
    else [ByIPv(w.ipVersion)]
  }

  lemma FiltersForCases(w: Wish)
    ensures
      var resistance := [ByProbingResistance(Method(w), w.ipVersion)];
      && (w.notBlockedIn != [] ==> FiltersFor(w) == resistance + CountryFilters(w, |w.notBlockedIn|))
      && (w.notBlockedIn == [] && LastTransport(w).Some? ==>
            FiltersFor(w) == [] + resistance + [ByTransport(Method(w), w.ipVersion)])
      && (w.notBlockedIn == [] && LastTransport(w).None? ==>
            FiltersFor(w) == [] + resistance + [ByIPv(w.ipVersion)])
      && [] + resistance == resistance
  {
  }

  function CountryFilters(w: Wish, n: nat): seq<Filter>
    requires n <= |w.notBlockedIn|
  {
    seq(n, i requires 0 <= i < n =>
      ByNotBlockedIn(Lower(w.notBlockedIn[i]), Method(w), w.ipVersion))
  }

  ghost function Members(fs: seq<Filter>): set<Filter> { set f | f in fs }

  lemma MethodIsWord(w: Wish)
    requires Clean(w)
    ensures IsWord(Method(w)) && Method(w) != ""
  {
    if w.transports != [] {
      LowerKeepsWords(w.transports[|w.transports| - 1]);
    }
  }

  /** The filters of every request are coherent, so the memo answers faithfully for them, alone and
      together with subring filters. */
  lemma RequestsAreCoherent(h: Hmacs, w: Wish, subrings: set<Filter>)
    requires Clean(w)
    requires forall f :: f in subrings ==> f.BySubring? && Normal(h, f)
    ensures Coherent(h, Members(FiltersFor(w)) + subrings)
  {
    var fs := Members(FiltersFor(w));
    MethodIsWord(w);
    forall f | f in fs
      ensures Normal(h, f)
    {
      if f.ByNotBlockedIn? {
        var i :| 0 <= i < |w.notBlockedIn| && f.country == Lower(w.notBlockedIn[i]);
        LowerKeepsWords(w.notBlockedIn[i]);
      }
    }
    assert CoherentFor(h, fs, w.ipVersion, Method(w));
    SubringsKeepCoherence(h, fs, subrings);
  }

  /** The filter sets that prepopulateRings builds are coherent. */
  lemma PrepopulatedAreCoherent(h: Hmacs, v: int, subrings: set<Filter>)
    requires v == 4 || v == 6
    requires forall f :: f in subrings ==> f.BySubring? && Normal(h, f)
    ensures Coherent(h, {ByIPv(v)} + subrings)
  {
    SingletonsAreCoherent(h, ByIPv(v));
    SubringsKeepCoherence(h, {ByIPv(v)}, subrings);
  }

  /** The two sets that the memo confuses when a vanilla request has no subring filter. */
  lemma VanillaCollisionIsHarmless(h: Hmacs, v: int, b: Bridge)
    requires GoodTags(h) && (v == 4 || v == 6)
    ensures
      var w := Wish([], [], v);
      var base := ByProbingResistance("vanilla", v);
      && WordSet(h, Members(FiltersFor(w))) == WordSet(h, {base})
      && PassesAll(h, Members(FiltersFor(w)), b) == Passes(h, base, b)
  {
    var w := Wish([], [], v);
    var base := ByProbingResistance("vanilla", v);
    ResistanceCollision(h, "vanilla", v);
    assert FiltersFor(w) == [base, ByIPv(v)];
    assert Members(FiltersFor(w)) == {base, ByIPv(v)};
    assert PassesAll(h, {base}, b) == Passes(h, base, b);
  }

  class BridgeRequestBase {
    var ipVersion: int
    var filters: seq<Filter>
    var transports: seq<string>
    var notBlockedIn: seq<string>
    var client: string
    var valid: bool

    ghost predicate Valid()
      reads this
    {
      Clean(Asks())
    }

    function Asks(): Wish
      reads this
    {
      Wish(transports, notBlockedIn, ipVersion)
    }

    constructor (ipVersion: int)
      ensures Valid() && Asks() == Wish([], [], Version(ipVersion))
      ensures filters == [] && client == "default" && !valid
    {
      this.ipVersion := Version(ipVersion);
      filters, transports, notBlockedIn, client, valid := [], [], [], "default", false;
    }

    method WithIPv4()
      requires Valid()
      modifies this`ipVersion
      ensures Valid() && Asks() == old(Asks()).(ipVersion := 4)
    {
      ipVersion := 4;
    }

    method WithIPv6()
      requires Valid()
      modifies this`ipVersion
      ensures Valid() && Asks() == old(Asks()).(ipVersion := 6)
    {
      ipVersion := 6;
    }

    method WithoutBlockInCountry(country: string)
      requires Valid() && IsWord(country) && country != ""
      modifies this`notBlockedIn
      ensures Valid()
      ensures Asks() == old(Asks()).(notBlockedIn := old(notBlockedIn) + [Lower(country)])
    {
      LowerKeepsWords(country);
      notBlockedIn := notBlockedIn + [Lower(country)];
    }

    method WithPluggableTransportType(pt: string)
      requires Valid() && IsWord(pt) && pt != ""
      modifies this`transports
      ensures Valid() && Asks() == old(Asks()).(transports := old(transports) + [pt])
    {
      transports := transports + [pt];
    }

    method AddFilter(filtre: Filter)
      modifies this`filters
      ensures filters == old(filters) + [filtre]
    {
      filters := filters + [filtre];
    }

    method ClearFilters()
      modifies this`filters
      ensures filters == []
    {
      filters := [];
    }

    function JustOnePTType(): Option<string>
      reads this
    {
      LastTransport(Asks())
    }

    method GenerateFilters(cache: FilterCache)
      requires Valid() && cache.Valid()
      modifies this`filters, cache
      ensures cache.Valid() && filters == FiltersFor(Asks()) && Made(cache)
      ensures forall f :: old(cache.Has(f)) ==> cache.Has(f)
    {
      hide Words, Coherent, GoodEntry, Lower, FiltersFor, CountryFilters;
      FiltersForCases(Asks());
      MethodIsWord(Asks());
      ClearFilters();
      var pt := JustOnePTType();
      var resistance := cache.MakeByProbingResistance(pt, ipVersion);
      AddFilter(resistance);
      if notBlockedIn != [] {
        AddCountryFilters(cache);
      } else if pt.Some? {
        var f := cache.MakeByTransport(pt.value, ipVersion);
        AddFilter(f);
      } else {
        var f := cache.MakeByIPv(ipVersion);
        AddFilter(f);
      }
    }

    /** All filters of the request came from the factories of this memo. */
    ghost predicate Made(cache: FilterCache)
      reads this, cache
    {
      forall f :: f in filters ==> cache.Has(f) && Normal(cache.h, f)
    }

    /** One filter for each country in which the bridges should not be blocked. */
    method AddCountryFilters(cache: FilterCache)
      requires Valid() && cache.Valid() && Made(cache)
      modifies this`filters, cache
      ensures cache.Valid() && Made(cache)
      ensures filters == old(filters) + CountryFilters(Asks(), |notBlockedIn|)
      ensures forall f :: old(cache.Has(f)) ==> cache.Has(f)
    {
      hide Words, Coherent, GoodEntry, Lower;
      LowerVanilla();
      var pt := JustOnePTType();
      for i := 0 to |notBlockedIn|
        invariant cache.Valid() && Made(cache)
        invariant filters == old(filters) + CountryFilters(Asks(), i)
        invariant forall f :: old(cache.Has(f)) ==> cache.Has(f)
      {
        var country := notBlockedIn[i];
        assert country in Asks().notBlockedIn;
        var f := cache.MakeByNotBlockedIn(country, if pt.Some? then pt.value else "vanilla", ipVersion);
        assert f == ByNotBlockedIn(Lower(country), Method(Asks()), ipVersion);
        AddFilter(f);
        assert CountryFilters(Asks(), i + 1) == CountryFilters(Asks(), i) + [f];
      }
    }
  }

  lemma LowerVanilla()
    ensures Lower("vanilla") == "vanilla"
  {
  }
}
