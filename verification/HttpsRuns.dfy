/** Whole runs of the web distributor (bridgedb/distributors/https/distributor.py): what clients get is
    what a distributor without cached rings would give them, and known proxies and direct clients
    never share a bridge. */
module HttpsRuns {
  import opened Common
  import opened Text
  import opened Storage
  import opened BridgeData
  import opened Filters
  import opened BridgeRequest
  import opened Admission
  import opened Answers
  import opened Hashring
  import opened FilteredSplitter
  import opened HttpsDistributor

  // ---------------------------------------------------------------- a distributor without rings

  /** The parts of a distributor that never change. */
  datatype Config = Config(h: Hmacs, keyed: Keyed, parse: string -> Option<Address>, wants: seq<Want>,
                           total: nat, proxySubring: nat)

  /** What happens to a distributor: the pools insert and remove bridges, its rings are prepopulated,
      the list of known proxies is loaded anew, clients ask. */
  datatype Event =
    | Inserted(bridge: Bridge)
    | Removed(bridge: Bridge)
    | Prepopulated
    | ProxiesLoaded(proxies: set<Address>)
    | Asked(wish: Wish, client: string, interval: string)

  /** The stored bridges, the filter sets that a ring was made for, and the known proxies. */
  datatype Plain = Plain(bridges: map<Fingerprint, Bridge>, cached: set<set<Filter>>, proxies: set<Address>)

  ghost predicate Sane(c: Config, ids: set<Fingerprint>)
  {
    && c.total > 0 && (c.proxySubring != 0 ==> c.total > 1)
    && forall i :: NoCollisions(c.keyed.order(i), ids)
  }

  predicate IsProxy(c: Config, s: Plain, client: string)
  {
    c.parse(client).Some? && c.parse(client).value in s.proxies
  }

  function AreaOf(c: Config, s: Plain, client: string): Area
    requires c.parse(client).Some?
  {
    GetSubnet(c.parse(client).value, IsProxy(c, s, client))
  }

  function SubringFor(c: Config, s: Plain, client: string): nat
    requires c.total > 0 && (c.proxySubring != 0 ==> c.total > 1) && c.parse(client).Some?
  {
    SubringOfArea(c.keyed, c.total, c.proxySubring, AreaOf(c, s, client), IsProxy(c, s, client))
  }

  ghost function FiltersOf(c: Config, s: Plain, w: Wish, client: string): set<Filter>
    requires c.total > 0 && (c.proxySubring != 0 ==> c.total > 1) && c.parse(client).Some?
  {
    Members(FiltersFor(w) + [BySubring(c.keyed.assign, SubringFor(c, s, client), c.total)])
  }

  ghost function Step(c: Config, s: Plain, e: Event): Plain
    requires c.total > 0 && (c.proxySubring != 0 ==> c.total > 1)
  {
    match e
    case Inserted(b) => if b.running then s.(bridges := s.bridges[b.fingerprint := b]) else s
    case Removed(b) => s.(bridges := s.bridges - {b.fingerprint})
    case Prepopulated =>
      s.(cached := s.cached + PrepopulatedSets(c.keyed, c.total, 4, c.total)
           + PrepopulatedSets(c.keyed, c.total, 6, c.total))
    case ProxiesLoaded(proxies) => s.(proxies := proxies)
    case Asked(w, client, _) =>
      if s.bridges == map[] || c.parse(client).None? then s
      else s.(cached := s.cached + {FiltersOf(c, s, w, client)})
  }

  ghost function After(c: Config, s: Plain, events: seq<Event>): Plain
    requires c.total > 0 && (c.proxySubring != 0 ==> c.total > 1)
  {
    if events == [] then s
    else Step(c, After(c, s, events[..|events| - 1]), events[|events| - 1])
  }

  /** While bridges are only inserted, what is stored is what their history says. */
  lemma {:induction false} InsertionsAreStored(c: Config, s: Plain, history: seq<Bridge>, events: seq<Event>)
    requires c.total > 0 && (c.proxySubring != 0 ==> c.total > 1) && s.bridges == map[]
    requires |events| == |history| && forall i :: 0 <= i < |events| ==> events[i] == Inserted(history[i])
    ensures After(c, s, events).bridges == Stored(history)
    decreases |history|
  {
    if history != [] {
      var n := |history| - 1;
      InsertionsAreStored(c, s, history[..n], events[..n]);
    }
  }

  /** What a client gets when the ring for the request is built by a scan on the spot. */
  ghost function Expected(c: Config, s: Plain, w: Wish, client: string, interval: string): Response
    requires Sane(c, s.bridges.Keys)
  {
    if s.bridges == map[] then Bridges([])
    else if c.parse(client).None? then InvalidAddress
    else
      var fs, order := FiltersOf(c, s, w, client), c.keyed.order(SubringFor(c, s, client));
      var pos := c.keyed.position(interval, AreaOf(c, s, client));
      FreshAnswerExists(s.bridges, c.h, fs, order, c.wants, pos);
      Bridges(FreshAnswer(s.bridges, c.h, fs, order, c.wants, pos).value)
  }

  /** The events after which the rings still hold what a scan finds. */
  ghost predicate Benign(c: Config, s: Plain, e: Event)
  {
    match e
    case Inserted(b) => b.running ==> forall fs :: fs in s.cached ==> Welcome(s.bridges, c.h, fs, c.wants, b)
    case Removed(b) =>
      b.fingerprint in s.bridges ==>
        forall fs :: fs in s.cached ==> !PassesAll(c.h, fs, s.bridges[b.fingerprint])
    case _ => true
  }

  ghost predicate AllBenign(c: Config, s: Plain, events: seq<Event>)
    requires c.total > 0 && (c.proxySubring != 0 ==> c.total > 1)
  {
    forall i :: 0 <= i < |events| ==> Benign(c, After(c, s, events[..i]), events[i])
  }

  /** Bridges have identities in circulation, and requests are such as the patterns let through. */
  ghost predicate Allowed(ids: set<Fingerprint>, e: Event)
  {
    (e.Inserted? ==> e.bridge.fingerprint in ids) && (e.Asked? ==> Clean(e.wish))
  }

  // ---------------------------------------------------------------- one event

  ghost function ConfigOf(d: HTTPSDistributor): Config
  {
    Config(d.cache.h, d.keyed, d.parse, d.answerParameters, d.totalSubrings, d.proxySubring)
  }

  ghost function PlainOf(d: HTTPSDistributor): Plain
    reads d, d.hashring
  {
    Plain(d.hashring.bridges, d.hashring.filterRings.Keys, d.proxies)
  }

  lemma ValidIsSane(d: HTTPSDistributor)
    requires d.Valid()
    ensures Sane(ConfigOf(d), d.hashring.ids) && Sane(ConfigOf(d), d.hashring.bridges.Keys)
  {
    hide HTTPSDistributor.Separated;
    d.ShapeOfValid();
    forall i
      ensures NoCollisions(d.keyed.order(i), d.hashring.bridges.Keys)
    {
      d.hashring.StoredApart(d.keyed.order(i));
    }
  }

  /** generateFilters fills the memo that the distributor shares and changes nothing else for it. */
  method MakeFilters(d: HTTPSDistributor, request: BridgeRequestBase)
    requires d.Valid() && request.Valid()
    modifies request`filters, d.cache
    ensures d.Valid() && (old(d.hashring.Agrees()) ==> d.hashring.Agrees())
    ensures request.filters == FiltersFor(request.Asks()) && request.Made(d.cache)
    ensures Coherent(d.cache.h, Members(request.filters))
  {
    hide FilterCache.Valid, FiltersFor, Coherent, HTTPSDistributor.Separated;
    hide FilteredBridgeSplitter.Valid, FilteredBridgeSplitter.Agrees;
    RequestIsNoRing(d.hashring.filterRings, request);
    request.GenerateFilters(d.cache);
    RequestsAreCoherent(d.cache.h, request.Asks(), {});
    assert Members(request.filters) + {} == Members(request.filters);
  }

  /** A client's request with its filters. */
  method MakeRequest(d: HTTPSDistributor, w: Wish, client: string) returns (request: BridgeRequestBase)
    requires d.Valid() && Clean(w)
    modifies d.cache
    ensures d.Valid() && (old(d.hashring.Agrees()) ==> d.hashring.Agrees())
    ensures fresh(request) && request.client == client && request.filters == FiltersFor(w)
    ensures request.Made(d.cache) && Coherent(d.cache.h, Members(request.filters))
  {
    hide FilterCache.Valid, FiltersFor, Coherent, HTTPSDistributor.Separated;
    hide FilteredBridgeSplitter.Valid, FilteredBridgeSplitter.Agrees;
    request := new BridgeRequestBase(w.ipVersion);
    request.ipVersion, request.transports, request.notBlockedIn := w.ipVersion, w.transports, w.notBlockedIn;
    request.client := client;
    assert request.Asks() == w;
    MakeFilters(d, request);
  }

  method AnswerRequest(d: HTTPSDistributor, request: BridgeRequestBase, ghost w: Wish, ghost client: string,
                       interval: string)
    returns (response: Response)
    requires d.Valid() && request.client == client && request.filters == FiltersFor(w)
    requires request.Made(d.cache) && Coherent(d.cache.h, Members(request.filters))
    requires Sane(ConfigOf(d), d.hashring.bridges.Keys)
    modifies d`toDirect, d`toProxies, request`filters, d.cache, d.hashring, d.hashring.Rings()
    ensures d.Valid() && fresh(d.hashring.Rings() - old(d.hashring.Rings()))
    ensures PlainOf(d) == Step(ConfigOf(d), old(PlainOf(d)), Asked(w, client, interval))
    ensures old(d.hashring.Agrees()) ==>
      d.hashring.Agrees() && response == Expected(ConfigOf(d), old(PlainOf(d)), w, client, interval)
    ensures old(d.toDirect) <= d.toDirect && old(d.toProxies) <= d.toProxies
    ensures
      var list := if response.Bridges? then response.list else [];
      && Fingerprints(list) <= (if IsProxy(ConfigOf(d), old(PlainOf(d)), client) then d.toProxies else d.toDirect)
      && forall b :: b in list ==> Admitted(d.cache.h, b, w)
  {
    hide HTTPSDistributor.Valid, FilterCache.Valid, FiltersFor, Coherent, FreshAnswer, NoCollisions;
    hide FilteredBridgeSplitter.Valid, FilteredBridgeSplitter.Agrees, GetSubnet, SubringOfArea, SubringOfBridge;
    hide BridgeRequestBase.Made, ReprOf, BridgeRing.Repr, FilterCache.Has;
    RequestIsNoRing(d.hashring.filterRings, request);
    d.ShapeOfValid();
    response := d.GetBridges(request, interval);
    if response.Bridges? {
      AdmittedWithSubring(d.cache.h, response.list, w, request.filters);
    }
  }

  lemma AdmittedWithSubring(h: Hmacs, list: seq<Bridge>, w: Wish, filters: seq<Filter>)
    requires list == [] || (filters != [] && filters[..|filters| - 1] == FiltersFor(w))
    requires forall b :: b in list ==> PassesAll(h, Members(filters), b)
    ensures forall b :: b in list ==> Admitted(h, b, w)
  {
    hide Passes;
    assert list != [] ==> forall f :: f in FiltersFor(w) ==> f in filters;
  }

  /** A client asks. */
  method Ask(d: HTTPSDistributor, w: Wish, client: string, interval: string) returns (response: Response)
    requires d.Valid() && Clean(w)
    requires Sane(ConfigOf(d), d.hashring.bridges.Keys)
    modifies d`toDirect, d`toProxies, d.cache, d.hashring, d.hashring.Rings()
    ensures d.Valid() && fresh(d.hashring.Rings() - old(d.hashring.Rings()))
    ensures PlainOf(d) == Step(ConfigOf(d), old(PlainOf(d)), Asked(w, client, interval))
    ensures old(d.hashring.Agrees()) ==>
      d.hashring.Agrees() && response == Expected(ConfigOf(d), old(PlainOf(d)), w, client, interval)
    ensures old(d.toDirect) <= d.toDirect && old(d.toProxies) <= d.toProxies
    ensures
      var list := if response.Bridges? then response.list else [];
      && Fingerprints(list) <= (if IsProxy(ConfigOf(d), old(PlainOf(d)), client) then d.toProxies else d.toDirect)
      && forall b :: b in list ==> Admitted(d.cache.h, b, w)
  {
    hide HTTPSDistributor.Valid, FilterCache.Valid, FiltersFor, Coherent, Sane, Expected, Step, Fingerprints;
    hide FilteredBridgeSplitter.Valid, FilteredBridgeSplitter.Agrees, IsProxy, BridgeRequestBase.Made, Clean;
    var request := MakeRequest(d, w, client);
    response := AnswerRequest(d, request, w, client, interval);
  }

  /** The bridges that an event hands out. */
  ghost function Sent(response: Option<Response>): set<Fingerprint>
  {
    if response.Some? && response.value.Bridges? then Fingerprints(response.value.list) else {}
  }

  /** Whoever is handed out passes the filters of the request. */
  ghost predicate OnlyAdmitted(h: Hmacs, e: Event, response: Option<Response>)
  {
    e.Asked? && response.Some? && response.value.Bridges? ==>
      forall b :: b in response.value.list ==> Admitted(h, b, e.wish)
  }

  /** What a distributor without rings would respond to an event. */
  ghost function Answered(c: Config, s: Plain, e: Event): Option<Response>
    requires Sane(c, s.bridges.Keys)
  {
    if e.Asked? then Some(Expected(c, s, e.wish, e.client, e.interval)) else None
  }

  /** One event. The distributor does to its bridges, filter sets and proxies what the one without
      rings does; from agreement, it still agrees if and only if the event is benign; and while it
      agrees it responds as the one without rings. */
  method Do(d: HTTPSDistributor, e: Event) returns (response: Option<Response>)
    requires d.Valid() && Allowed(d.hashring.ids, e)
    modifies d`toDirect, d`toProxies, d`proxies, d.cache, d.hashring, d.hashring.Rings()
    ensures d.Valid() && fresh(d.hashring.Rings() - old(d.hashring.Rings()))
    ensures Sane(ConfigOf(d), old(d.hashring.bridges).Keys)
    ensures PlainOf(d) == Step(ConfigOf(d), old(PlainOf(d)), e)
    ensures old(d.hashring.Agrees()) ==>
      && (d.hashring.Agrees() <==> Benign(ConfigOf(d), old(PlainOf(d)), e))
      && response == Answered(ConfigOf(d), old(PlainOf(d)), e)
    ensures old(d.toDirect) <= d.toDirect && old(d.toProxies) <= d.toProxies
    ensures e.Asked? ==>
      Sent(response) <= if IsProxy(ConfigOf(d), old(PlainOf(d)), e.client) then d.toProxies else d.toDirect
    ensures OnlyAdmitted(d.cache.h, e, response)
    ensures !e.Asked? ==> response == None
  {
    hide HTTPSDistributor.Valid, FilterCache.Valid, Sane, Expected, Fingerprints, Clean, Welcome, PassesAll;
    hide FilteredBridgeSplitter.Valid, FilteredBridgeSplitter.Agrees, IsProxy, PrepopulatedSets, FiltersOf;
    hide Admitted;
    ValidIsSane(d);
    match e
    case Inserted(b) =>
      d.Insert(b);
      response := None;
    case Removed(b) =>
      d.Remove(b);
      response := None;
    case Prepopulated =>
      d.PrepopulateRings();
      response := None;
    case ProxiesLoaded(proxies) =>
      LoadProxies(d, proxies);
      response := None;
    case Asked(w, client, interval) =>
      var answer := Ask(d, w, client, interval);
      response := Some(answer);
  }

  /** The set of known proxies is filled anew. */
  method LoadProxies(d: HTTPSDistributor, proxies: set<Address>)
    requires d.Valid()
    modifies d`proxies
    ensures d.Valid() && d.proxies == proxies && (old(d.hashring.Agrees()) ==> d.hashring.Agrees())
  {
    hide FilterCache.Valid, FilteredBridgeSplitter.Valid, FilteredBridgeSplitter.Agrees;
    d.proxies := proxies;
  }

  // ---------------------------------------------------------------- whole runs

  /** No bridge is in an answer to a known proxy and in an answer to a direct client. */
  ghost predicate NeverShared(c: Config, s: Plain, events: seq<Event>, responses: seq<Option<Response>>)
    requires c.total > 0 && (c.proxySubring != 0 ==> c.total > 1)
    requires |responses| == |events|
  {
    forall i, j :: 0 <= i < |events| && 0 <= j < |events| && ToProxy(c, s, events, i) && ToDirect(c, s, events, j) ==>
      Sent(responses[i]) !! Sent(responses[j])
  }

  ghost predicate ToProxy(c: Config, s: Plain, events: seq<Event>, i: nat)
    requires c.total > 0 && (c.proxySubring != 0 ==> c.total > 1) && i < |events|
  {
    events[i].Asked? && c.parse(events[i].client).Some? &&
    c.parse(events[i].client).value in After(c, s, events[..i]).proxies
  }

  ghost predicate ToDirect(c: Config, s: Plain, events: seq<Event>, j: nat)
    requires c.total > 0 && (c.proxySubring != 0 ==> c.total > 1) && j < |events|
  {
    events[j].Asked? &&
    (c.parse(events[j].client).None? || c.parse(events[j].client).value !in After(c, s, events[..j]).proxies)
  }

  /** All responses are those of a distributor without rings. */
  ghost predicate AsExpected(c: Config, s: Plain, events: seq<Event>, responses: seq<Option<Response>>)
    requires c.total > 0 && (c.proxySubring != 0 ==> c.total > 1)
    requires |responses| <= |events|
  {
    forall i :: 0 <= i < |responses| ==>
      var t := After(c, s, events[..i]);
      Sane(c, t.bridges.Keys) && responses[i] == Answered(c, t, events[i])
  }

  /** A run of any events in any order. Proxies and direct clients never share a bridge, and whoever is
      handed out passes the filters of the request, if the ring is stale or not. While all events are
      benign, the cached rings agree with scans and no response shows that there are any. */
  method Run(d: HTTPSDistributor, events: seq<Event>) returns (responses: seq<Option<Response>>)
    requires d.Valid() && forall e :: e in events ==> Allowed(d.hashring.ids, e)
    modifies d`toDirect, d`toProxies, d`proxies, d.cache, d.hashring, d.hashring.Rings()
    ensures d.Valid() && |responses| == |events|
    ensures Sane(ConfigOf(d), d.hashring.ids)
    ensures PlainOf(d) == After(ConfigOf(d), old(PlainOf(d)), events)
    ensures NeverShared(ConfigOf(d), old(PlainOf(d)), events, responses)
    ensures forall i :: 0 <= i < |events| ==> OnlyAdmitted(d.cache.h, events[i], responses[i])
    ensures old(d.hashring.Agrees()) && AllBenign(ConfigOf(d), old(PlainOf(d)), events) ==>
      d.hashring.Agrees() && AsExpected(ConfigOf(d), old(PlainOf(d)), events, responses)
  {
    hide HTTPSDistributor.Valid, FilterCache.Valid, Sane, Step, Benign, Answered, IsProxy, Allowed, Sent;
    hide FilteredBridgeSplitter.Valid, FilteredBridgeSplitter.Agrees, After, Handed, AsExpected, AllBenign;
    hide NeverShared, OnlyAdmitted;
    ghost var c, s := ConfigOf(d), PlainOf(d);
    ValidIsSane(d);
    SaneParts(c, d.hashring.ids);
    responses := [];
    AtTheStart(c, s, events, d.toProxies, d.toDirect);
    for i := 0 to |events|
      invariant d.Valid() && fresh(d.hashring.Rings() - old(d.hashring.Rings()))
      invariant |responses| == i && PlainOf(d) == After(c, s, events[..i])
      invariant Handed(c, s, events, responses, d.toProxies, d.toDirect)
      invariant forall k :: 0 <= k < i ==> OnlyAdmitted(d.cache.h, events[k], responses[k])
      invariant old(d.hashring.Agrees()) && AllBenign(c, s, events[..i]) ==>
        d.hashring.Agrees() && AsExpected(c, s, events, responses)
    {
      assert events[i] in events;
      ghost var toProxies, toDirect := d.toProxies, d.toDirect;
      AfterOneMore(c, s, events, i);
      BenignOneMore(c, s, events, i);
      var response := Do(d, events[i]);
      HandedOneMore(c, s, events, responses, toProxies, toDirect, response, d.toProxies, d.toDirect);
      ExpectedOneMore(c, s, events, responses, response);
      responses := responses + [response];
    }
    assert events[..|events|] == events;
    d.SeparatedWhenValid();
    HandedIsNeverShared(c, s, events, responses, d.toProxies, d.toDirect);
  }

  /** Whatever was handed out so far is in the history of the right kind of clients. */
  ghost predicate Handed(c: Config, s: Plain, events: seq<Event>, responses: seq<Option<Response>>,
                         toProxies: set<Fingerprint>, toDirect: set<Fingerprint>)
    requires c.total > 0 && (c.proxySubring != 0 ==> c.total > 1)
    requires |responses| <= |events|
  {
    forall k :: 0 <= k < |responses| ==>
      && (ToProxy(c, s, events, k) ==> Sent(responses[k]) <= toProxies)
      && (ToDirect(c, s, events, k) ==> Sent(responses[k]) <= toDirect)
  }

  lemma HandedOneMore(c: Config, s: Plain, events: seq<Event>, responses: seq<Option<Response>>,
                      toProxies: set<Fingerprint>, toDirect: set<Fingerprint>, response: Option<Response>,
                      toProxies': set<Fingerprint>, toDirect': set<Fingerprint>)
    requires c.total > 0 && (c.proxySubring != 0 ==> c.total > 1)
    requires |responses| < |events| && Handed(c, s, events, responses, toProxies, toDirect)
    requires toProxies <= toProxies' && toDirect <= toDirect'
    requires
      var e, t := events[|responses|], After(c, s, events[..|responses|]);
      e.Asked? ==> Sent(response) <= if IsProxy(c, t, e.client) then toProxies' else toDirect'
    ensures Handed(c, s, events, responses + [response], toProxies', toDirect')
  {
    hide Sent, After;
  }

  lemma HandedIsNeverShared(c: Config, s: Plain, events: seq<Event>, responses: seq<Option<Response>>,
                            toProxies: set<Fingerprint>, toDirect: set<Fingerprint>)
    requires c.total > 0 && (c.proxySubring != 0 ==> c.total > 1)
    requires |responses| == |events| && Handed(c, s, events, responses, toProxies, toDirect)
    requires toDirect !! toProxies
    ensures NeverShared(c, s, events, responses)
  {
    hide Sent, ToProxy, ToDirect;
  }

  lemma ExpectedOneMore(c: Config, s: Plain, events: seq<Event>, responses: seq<Option<Response>>,
                        response: Option<Response>)
    requires c.total > 0 && (c.proxySubring != 0 ==> c.total > 1)
    requires |responses| < |events|
    requires Sane(c, After(c, s, events[..|responses|]).bridges.Keys)
    ensures
      AsExpected(c, s, events, responses) &&
      response == Answered(c, After(c, s, events[..|responses|]), events[|responses|]) ==>
      AsExpected(c, s, events, responses + [response])
  {
    hide Sane, Answered, After;
  }

  lemma BenignOneMore(c: Config, s: Plain, events: seq<Event>, i: nat)
    requires c.total > 0 && (c.proxySubring != 0 ==> c.total > 1)
    requires i < |events|
    ensures AllBenign(c, s, events[..i + 1]) <==>
      AllBenign(c, s, events[..i]) && Benign(c, After(c, s, events[..i]), events[i])
  {
    hide Benign, After;
    assert forall k :: 0 <= k <= i ==> events[..i + 1][..k] == events[..k];
    assert forall k :: 0 <= k < i ==> events[..i][..k] == events[..k];
  }

  lemma AtTheStart(c: Config, s: Plain, events: seq<Event>, toProxies: set<Fingerprint>,
                   toDirect: set<Fingerprint>)
    requires c.total > 0 && (c.proxySubring != 0 ==> c.total > 1)
    ensures After(c, s, events[..0]) == s && AsExpected(c, s, events, [])
    ensures Handed(c, s, events, [], toProxies, toDirect)
  {
  }

  /** What the constructor makes of the configured number of subrings: known proxies add one. */
  ghost function Configured(totalSubrings: nat, keyed: Keyed, proxies: set<Address>, wants: seq<Want>, h: Hmacs,
                            parse: string -> Option<Address>): Config
  {
    if proxies != {} then Config(h, keyed, parse, wants, totalSubrings + 1, totalSubrings + 1)
    else Config(h, keyed, parse, wants, totalSubrings, 0)
  }

  /** A distributor is made and runs. */
  method RunAnew(totalSubrings: nat, keyed: Keyed, proxies: set<Address>, wants: seq<Want>, cache: FilterCache,
                 parse: string -> Option<Address>, ghost ids: set<Fingerprint>, events: seq<Event>)
    returns (responses: seq<Option<Response>>)
    requires totalSubrings > 0 && cache.Valid() && keyed.assign in cache.h.keys
    requires forall i :: NoCollisions(keyed.order(i), ids)
    requires forall e :: e in events ==> Allowed(ids, e)
    modifies cache
    ensures |responses| == |events|
    ensures forall i :: 0 <= i < |events| ==> OnlyAdmitted(cache.h, events[i], responses[i])
    ensures
      var c := Configured(totalSubrings, keyed, proxies, wants, cache.h, parse);
      var s := Plain(map[], {}, proxies);
      NeverShared(c, s, events, responses) && (AllBenign(c, s, events) ==> AsExpected(c, s, events, responses))
  {
    hide NeverShared, OnlyAdmitted, AllBenign, AsExpected, Allowed, HTTPSDistributor.Valid, FilterCache.Valid;
    var d := new HTTPSDistributor(totalSubrings, keyed, proxies, wants, cache, parse, ids);
    assert ConfigOf(d) == Configured(totalSubrings, keyed, proxies, wants, cache.h, parse);
    assert PlainOf(d) == Plain(map[], {}, proxies);
    responses := Run(d, events);
  }

  /** So a bridge with a probing-resistant transport is handed out only to requests whose last transport
      is ScrambleSuit or obfs4. */
  lemma ResistantAreGuarded(h: Hmacs, ids: set<Fingerprint>, e: Event, response: Option<Response>, b: Bridge,
                            t: Transport)
    requires Allowed(ids, e) && OnlyAdmitted(h, e, response) && e.Asked?
    requires response.Some? && response.value.Bridges? && b in response.value.list
    requires t in b.transports && t.probingResistant
    ensures e.wish.transports != []
    ensures Lower(e.wish.transports[|e.wish.transports| - 1]) in {"scramblesuit", "obfs4"}
  {
    ResistantBridgesAreGuarded(h, b, e.wish, t);
  }

  lemma SaneParts(c: Config, ids: set<Fingerprint>)
    requires Sane(c, ids)
    ensures c.total > 0 && (c.proxySubring != 0 ==> c.total > 1)
  {
  }

  lemma AfterOneMore(c: Config, s: Plain, events: seq<Event>, i: nat)
    requires c.total > 0 && (c.proxySubring != 0 ==> c.total > 1)
    requires i < |events|
    ensures After(c, s, events[..i + 1]) == Step(c, After(c, s, events[..i]), events[i])
  {
    assert events[..i + 1][..i] == events[..i];
  }
}
