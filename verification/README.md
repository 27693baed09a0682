# BridgeDB: a verified model

BridgeDB hands Tor bridges to people who cannot reach the Tor network directly. It decides which
bridges a client may see, how often, and from which pool. This project models the decision-making
parts of BridgeDB in Dafny and proves what they promise, for all inputs, all runs and all reachable
states.

| module | what it models |
|---|---|
| Windows, Nearest, Subnets, Answers, Disruption, Hashring, Forced, Removals | the consistent hashring `BridgeRing`: lazy sorting, bisection with wrap-around, forced subrings, the oversampled window, the greedy subnet filter, the keys that removals leave behind |
| FilteredSplitter | `FilteredBridgeSplitter`: one cached ring per set of filters |
| Filters, Blocking, BridgeRequest, Admission | the filter factories with their shared memo, the filters of a request, and which bridges they admit |
| HttpsDistributor, SubringShares, HttpsRuns | areas, subrings and their shares, the ring cache, and over whole runs the separation of proxies from direct clients and the invisibility of the cache |
| BridgeSplitter, PoolRuns, Bisect | pools with exact shares, the database column that records them, and where a bridge is after any run |
| BridgeLines | which address of an admitted bridge a client is told |
| EmailDistributor, EmailWarnings, Storage | the rate limit for e-mail clients, who is warned and who is ignored, and the tables |
| Measurements, GrowingReports | reconciling "blocked" and "reachable" measurements |
| Connection | the reentrant lock and reference count around the one database connection |
| Schedule, Calendar, Captcha | calendar intervals and the challenges that expire with them |
| EditDistance, Headers, FallbackOrder | memoised edit distance; a list that is edited while a lazy iterator walks it |
| Common, Text, Arithmetic, Residues, BridgeData | options, ASCII text, division and counting lemmas, the bridge record |

How to read the model:

- Objects whose methods update fields are classes, and each of their methods is proved against a
  function of the old state. What is promised about runs is proved about those functions or kept as
  an invariant (`Valid`, `IsExact`, `Agrees`, `OneRing`, `Invariant`).
- HMAC, RSA, base64, UTF-8 and address parsing are function parameters with the laws that the code
  relies on. Ring positions are 160-bit numbers. A ring's HMAC gives different places to the
  identities in circulation (`NoCollisions`).
- An address is a version and a number; a network is the part of it that `/16` or `/32` keeps. The
  text that `getSubnet` prints is modelled as the network or proxy group that it names.
- Clocks are parameters: real numbers where the code reads `time.time()`, integers where it
  truncates. Times stored in tables have minute precision.
- `cleanDatabase` reads the clock once for each of its two tables, so a cleaning is two events of a run.
- Exceptions are results: `None`, or a case of an outcome type.
- Iteration over Python sets and dictionaries is in an arbitrary order.

Where the code is not what its documentation suggests, the model follows the code:

- `getBridges` sorts the oversampled window before it truncates (bridgedb/bridgerings.py:342, 349), so an
  answer holds the smallest keys of the window and not the first ones after the position.
- The configuration promises a number of answers with a given port or flag "if possible" (bridgedb.conf:254-261).
  The forced bridges are chosen, but the truncation can drop them again; the model says exactly when.
- `remove` leaves the key of a bridge in the list of keys (bridgedb/bridgerings.py:183-189): a later answer
  that meets the key raises KeyError, and when the bridge returns its key is listed twice. The model says
  exactly who gets the error, and exactly when a client of the returned bridge gets the answer of a
  fresh ring.
- The splitter's `insert` drops a bridge's old version only where the new version still passes
  (bridgedb/bridgerings.py:617-619). The model says exactly when the cached rings still agree with a scan.
- Agreeing measurements are never merged, because list membership compares identities
  (bridgedb/Storage.py:475); the report can then keep an endpoint that a newer row cleared, and in
  mixed orders it can believe an old row. The model says exactly what is reported when rows come in
  the order of their dates and when that is right; that newest-first rows are always right; and, for
  any order, exactly when the report is right, at the end and after every prefix.
- A request for "any" overrides the recorded pool without leaving the old ring
  (bridgedb/bridgerings.py:479-510). The model says exactly when a bridge ends up in two rings.
- `intervalStart` takes the ceiling of its argument (bridgedb/schedule.py:249), and `nextIntervalStarts`
  subtracts 12 months at most once (bridgedb/schedule.py:320-327), so every month count above 12 fails at some
  moment and those from 24 on fail at every moment.
- A bridge can be admitted to a ring and still yield no line: for the other IP version than that of
  its primary address, for a transport that is not spelled in lower case, and for "vanilla" spelled
  out.

## Model

| member | source | states |
|---|---|---|
| Windows.MinimalDisruption | bridgedb/bridgerings.py:262-273 | a new bridge takes at most one key out of any client's window of 2N keys, brings only itself in, and displaces at most one of the N keys of an unfiltered answer; short rings and wrap-around included |
| Windows.SliceIsNearest | bridgedb/bridgerings.py:263-273 | bisecting and wrapping around finds exactly the n keys that come first clockwise from the position, or all keys of a short ring |
| Windows.WindowSize | bridgedb/bridgerings.py:335-342 | a window holds twice as many keys as the client is to get bridges, or the whole ring |
| Nearest.ChoiceFromChoices | bridgedb/bridgerings.py:342-349 | re-sorting and truncating a window that changed by one arrival loses at most one key |
| Windows.SortedUnique | bridgedb/bridgerings.py:222-226 | sorting has one result, so the order of insertion does not show |
| Subnets.GreedyIsDiverse | bridgedb/bridgerings.py:275-312 | kept bridges have addresses in different networks and there are as many as there are networks |
| Subnets.GreedyKeepsOrder | bridgedb/bridgerings.py:275-312 | the subnet filter keeps the order of the bridges |
| Subnets.RejectedHasNeighbour | bridgedb/bridgerings.py:294-303 | a bridge with an address is rejected only when an earlier kept bridge shares its network |
| Answers.AnswerIsDiverse | bridgedb/bridgerings.py:325-353 | a filtered answer holds exactly min(N, number of networks among the chosen keys) bridges, all in different networks, with forced subrings too |
| Disruption.NewBridgeDisplaces | bridgedb/bridgerings.py:314-353 | inserting a new bridge into any ring displaces at most two bridges from any subnet-filtered answer and at most one from any other, and one more for each forced subring that the bridge goes into |
| Disruption.TwoCanBeDisplaced | bridgedb/bridgerings.py:275-349 | a filtered answer that loses two bridges: the bound is attained |
| Disruption.FinishHoldsSelected | bridgedb/bridgerings.py:342-349 | a filtered answer holds exactly the bridges at the first n keys that are the smallest of their network |
| Forced.StableAreChosen | bridgedb/bridgerings.py:206-219 | a ring that is right and forces stable bridges chooses every answer from at least as many stable bridges as it is told, or from all it has: the nearest ones clockwise, and nothing else is in their subring |
| Forced.PortsAreChosen | bridgedb/bridgerings.py:206-219 | the same for bridges that listen on a port |
| Forced.ForcedReachAnswerIff | bridgedb/bridgerings.py:342-349 | the stable bridges of an answer, and those with a port, are exactly the ones whose keys have fewer than N smaller ones among the keys that compete: the chosen ones, or the smallest of each network when the answer is filtered |
| Forced.ForcedCanBeMissed | bridgedb/bridgerings.py:325-349 | a ring that forces one stable bridge, has one, and answers without it |
| Disruption.UnfilteredAnswer | bridgedb/bridgerings.py:333-349 | without forced subrings an unfiltered answer holds exactly the bridges at the N smallest keys of the window |
| Disruption.NewBridgeDisplacesOne | bridgedb/bridgerings.py:325-353 | inserting a new bridge into a ring without forced subrings displaces at most one bridge from any unfiltered answer |
| Answers.AnswersAreHeld | bridgedb/bridgerings.py:331-349 | a ring answers only with bridges that it holds |
| Hashring.InsertKeepsExact | bridgedb/bridgerings.py:191-219 | after insertion the key list and all forced subrings are right if and only if a returning bridge keeps every property that put it into a subring |
| Hashring.RemoveKeepsExact | bridgedb/bridgerings.py:183-189 | after removal they are right if and only if the bridge was not there |
| Hashring.LatestIsHeld | bridgedb/bridgerings.py:212-219 | after any run of insertions each bridge is held, at its place and under its identity, in its last version |
| Removals.RemovedKeyFails | bridgedb/bridgerings.py:183-189 | after a held bridge was removed from any ring, forced subrings included, exactly those clients get a KeyError whose window held its key or to whom a subring still contributes the key |
| Removals.InsertRemoveAskFails | bridgedb/bridgerings.py:183-219 | a ring that gets a bridge, loses it and is asked fails, for every position |
| Removals.ReturnedChooses | bridgedb/bridgerings.py:183-273 | after a removed bridge returned into the same subrings the keys chosen for an answer are those of a fresh ring, except that each list in which both places of its key are read gives one key less |
| Removals.FreshAfterReturnIff | bridgedb/bridgerings.py:183-353 | after the return a client gets the answer of a fresh ring if and only if the same keys are selected from both choices; so does every client whose choice in a fresh ring does not hold the bridge |
| Hashring.ChosenFromExact | bridgedb/bridgerings.py:325-342 | in a ring that is right, the keys chosen for an answer depend on the bridges alone: not on insertion order, not on whether the list is sorted |
| Hashring.BridgeRing.constructor | bridgedb/bridgerings.py:138-155 | a new ring with its subrings is empty and right |
| Hashring.BridgeRing.Clear | bridgedb/bridgerings.py:173-181 | ring and subrings become empty and right, whatever they were |
| Hashring.BridgeRing.Remove | bridgedb/bridgerings.py:183-189 | the bridge leaves the dictionary of the ring and of every subring, keys and bridgesByID stay |
| Hashring.BridgeRing.Insert | bridgedb/bridgerings.py:191-219 | the bridge takes its place in the ring and in exactly the subrings it matches; the ring stays right exactly under the condition of InsertKeepsExact |
| Hashring.BridgeRing.SortKeys | bridgedb/bridgerings.py:222-226 | the keys are sorted afterwards and nothing else changes |
| Hashring.BridgeRing.GetBridgeKeysAt | bridgedb/bridgerings.py:228-273 | returns the clockwise slice, or the whole list as it is when it is short; sorts lazily |
| Hashring.BridgeRing.FilterDistinctSubnets | bridgedb/bridgerings.py:275-312 | the nested loops compute the greedy choice, and fail exactly when some key has lost its bridge |
| Hashring.BridgeRing.GetBridges | bridgedb/bridgerings.py:314-353 | the answer made of forced and near keys, deduplicated, sorted, filtered and truncated; KeyError exactly when a chosen key has lost its bridge; for a ring that is right, a function of its bridges |
| FilteredSplitter.ScanAfterInsert | bridgedb/bridgerings.py:614-619 | how the set of stored bridges that pass a filter set changes when a bridge comes |
| FilteredSplitter.InsertionOrderIsInvisible | bridgedb/bridgerings.py:607-615 | while bridges keep their versions, the order and the number of their insertions do not show in what is stored, and so in no ring that agrees with a scan |
| FilteredSplitter.FilteredBridgeSplitter.Insert | bridgedb/bridgerings.py:599-621 | stores running bridges; every cached ring still holds exactly what a scan finds if and only if no ring that held the stored version turns the new version away |
| FilteredSplitter.FilteredBridgeSplitter.Remove | bridgedb/bridgerings.py:578-597 | forgets the bridge; the rings still agree with a scan if and only if none of them held the stored version |
| FilteredSplitter.ReturnInOtherVersion | bridgedb/bridgerings.py:617-619 | a run of insertions after which a cached ring no longer agrees with a scan: a bridge returns with another IP version |
| FilteredSplitter.RemoveHeldBridge | bridgedb/bridgerings.py:593-595 | a run that ends in a removal after which a cached ring no longer agrees with a scan |
| FilteredSplitter.FilteredBridgeSplitter.AddRing | bridgedb/bridgerings.py:643-707 | caches a ring unless the filter set has one, fills it by a scan, and keeps all rings in agreement |
| FilteredSplitter.FilteredBridgeSplitter.Clear | bridgedb/bridgerings.py:574-576 | forgets bridges and rings |
| HttpsDistributor.AreasAreNetworks | bridgedb/distributors/https/distributor.py:145-156 | direct clients share an area if and only if their addresses agree on the first 16 (IPv4) or 32 (IPv6) bits |
| HttpsDistributor.NeighboursShareSubring | bridgedb/distributors/https/distributor.py:164-182 | direct clients of one network share a subring, which is never the proxy subring |
| HttpsDistributor.FourProxyAreas | bridgedb/distributors/https/distributor.py:158-159 | however many proxies a client uses, they form at most four areas |
| HttpsDistributor.ProxyAreasAreRemainders | bridgedb/distributors/https/distributor.py:145-159 | proxies share an area if and only if their addresses are equal modulo four, and never with direct clients |
| HttpsDistributor.HowManyBridges | bridgedb/distribute.py:253-271 | an answer has one bridge from a ring below 20, two below 100 and three from a larger one, all in different networks, or as many as there are networks to choose from |
| SubringShares.DirectSharesAreEqual | bridgedb/distributors/https/distributor.py:172-180 | of any k times n areas with consecutive numbers, n being the number of subrings for direct clients, exactly k ask each of these subrings |
| SubringShares.BridgeSharesAreEqual | bridgedb/filters.py:52-55 | of any k times as many bridges with consecutive numbers as there are subrings exactly k belong to each |
| SubringShares.WhoReachesBridge | bridgedb/distributors/https/distributor.py:172-182 | which clients ask the subring of a bridge: proxies if and only if it is in the last subring, direct clients if and only if area and bridge leave the same remainder |
| SubringShares.EveryBridgeIsReached | bridgedb/distributors/https/distributor.py:172-182 | a bridge outside the subring for proxies is reached from exactly one of any n areas with consecutive numbers; a bridge in it from none |
| HttpsDistributor.ExactlyOneSubring | bridgedb/filters.py:52-55 | every bridge passes the filter of exactly one subring |
| HttpsDistributor.HTTPSDistributor.constructor | bridgedb/distributors/https/distributor.py:79-104 | known proxies add one subring, the last one; without them there is none |
| HttpsDistributor.HTTPSDistributor.PrepopulateRings | bridgedb/distributors/https/distributor.py:254-265 | exactly the filter sets of each subring with each IP version come to be cached, and rings that agreed with a scan still do |
| HttpsDistributor.PrepopulatedSetsAre | bridgedb/distributors/https/distributor.py:254-265 | these are one for each subring from 1 to the total |
| HttpsDistributor.HTTPSDistributor.Insert | bridgedb/distributors/https/distributor.py:278-280 | inserting keeps the cached rings the same objects, the separation, and agreement exactly under the condition of the splitter |
| HttpsDistributor.HTTPSDistributor.Remove | bridgedb/bridgerings.py:492-493 | removing a bridge that leaves for another pool keeps the cached rings the same objects, the separation, and agreement exactly under the condition of the splitter |
| HttpsDistributor.HTTPSDistributor.NewRing | bridgedb/distributors/https/distributor.py:340-343 | a miss makes an empty ring in the order of the subring and a function that tests the filter set |
| HttpsDistributor.HTTPSDistributor.BuildHashringFilters | bridgedb/distributors/https/distributor.py:282-285 | one subring filter more, after which the memo still answers faithfully for the set |
| HttpsDistributor.HTTPSDistributor.AnswerFrom | bridgedb/distributors/https/distributor.py:333-347 | a cache hit and a cache miss give the same answer, that of a ring built afresh by a scan; all bridges of it are of the client's subring |
| HttpsDistributor.HTTPSDistributor.Respond | bridgedb/distributors/https/distributor.py:322-349 | all bridges of an answer are of the client's subring, and the history of its kind of clients grows by exactly them |
| HttpsDistributor.HTTPSDistributor.GetBridges | bridgedb/distributors/https/distributor.py:287-349 | every branch: no bridges, bad addresses, and the fresh answer; every bridge of an answer passes the filters of the request and is of the client's subring, stale rings included; no bridge of the history went both to a known proxy and to a direct client; rings that are new in the cache are new objects |
| HttpsRuns.Do | bridgedb/distributors/https/distributor.py:254-349 | one insertion, removal, prepopulation, change of the known proxies or request does what it does to a distributor without cached rings; the rings agree afterwards if and only if the event was benign |
| HttpsRuns.Run | bridgedb/distributors/https/distributor.py:254-349 | over every run of these events, in any order, no bridge is both in an answer to a known proxy and in one to a direct client, and every bridge that is handed out passes the filters of its request; and while all insertions are welcome and no bridge that a cached ring holds is removed, every response is that of a distributor that builds each ring afresh by a scan |
| HttpsRuns.RunAnew | bridgedb/distributors/https/distributor.py:79-349 | the same for every run from the constructor on |
| HttpsRuns.ResistantAreGuarded | bridgedb/filters.py:145-170 | in every such run a bridge with a probing-resistant transport is handed out only to requests whose last transport is ScrambleSuit or obfs4 |
| HttpsRuns.InsertionsAreStored | bridgedb/bridgerings.py:599-615 | a run of insertions stores the last running version of each bridge |
| Filters.WordsDetermineMeaning | bridgedb/filters.py:64-90 | the words of the names of a coherent filter set determine which bridges pass all of it |
| Filters.CollisionsAreHarmless | bridgedb/filters.py:73-90 | coherent filter sets with the same name test the same |
| Filters.ResistanceCollision | bridgedb/filters.py:145-170 | the sets {resistance(m), ipv} and {resistance(m)} always share a name, and mean the same if and only if m is "vanilla" |
| Filters.HitIsFaithful | bridgedb/filters.py:78-79 | whatever the memo returns under a name tests the conjunction that was asked for |
| Filters.MissIsNoFactoryName | bridgedb/filters.py:80-90 | a conjunction is never stored under the name of a single factory filter |
| Filters.NameInjective | bridgedb/filters.py:28-298 | different factory filters have different names |
| Filters.FilterCache.constructor | bridgedb/filters.py:128-129 | the memo starts with the two IP version filters |
| Filters.FilterCache.MakeByIPv | bridgedb/filters.py:92-126 | unknown versions become 4 |
| Filters.FilterCache.MakeByProbingResistance | bridgedb/filters.py:131-170 | the filter made for a method name in any case and a version, remembered under its name; what it tests is said by ResistantBridgesAreGuarded and the three lemmas on admission |
| Filters.FilterCache.MakeByTransport | bridgedb/filters.py:172-216 | the transport filter for a method name in any case; without a method name the IP version filter |
| Filters.FilterCache.MakeByNotBlockedIn | bridgedb/filters.py:218-298 | the blocking filter for a country and a method name in any case; without a country the transport or IP version filter |
| Filters.FilterCache.MakeBySubring | bridgedb/filters.py:28-62 | the filter for a key, a subring and a total |
| Filters.FilterCache.ByFilters | bridgedb/filters.py:64-90 | for every run of factory calls before it, the returned function agrees with the plain conjunction on every bridge |
| BridgeRequest.RequestsAreCoherent | bridgedb/bridgerequest.py:231-258 | the filters of every request, with any subring filters, are coherent |
| BridgeRequest.PrepopulatedAreCoherent | bridgedb/distributors/https/distributor.py:254-265 | the filter sets of prepopulateRings are coherent |
| BridgeRequest.VanillaCollisionIsHarmless | bridgedb/bridgerequest.py:246-258 | the one set of a real request that shares its name with a single filter tests what that filter tests |
| BridgeRequest.BridgeRequestBase.GenerateFilters | bridgedb/bridgerequest.py:231-258 | which filters a request gets, in order, all made by the factories of the memo |
| Admission.VanillaAdmission | bridgedb/filters.py:145-292 | a request without a transport admits exactly the bridges that count for its IP version, have no probing-resistant transport, and are open at their primary address in all its countries |
| Admission.TransportAdmission | bridgedb/filters.py:145-292 | a request for another transport than "vanilla", in any case, admits exactly the bridges that have it in the right IP version, none of whose transports of this name is blocked in its countries, and that have no probing-resistant transport unless ScrambleSuit or obfs4 is asked for; only the last transport counts |
| Admission.SpelledOutVanillaAdmission | bridgedb/filters.py:145-292 | the same for "vanilla" spelled out, which needs a transport of this name only if no country is named |
| Admission.ResistantBridgesAreGuarded | bridgedb/filters.py:162-164 | a bridge with a probing-resistant transport is admitted to no other request than one for ScrambleSuit or obfs4 |
| Admission.SpellingDoesNotMatter | bridgedb/bridges.py:1385-1448 | whether a transport or a bridge is blocked does not depend on the case of the country or the transport |
| Admission.CountryAlonePasses | bridgedb/filters.py:269-292 | the filter for a country without a transport passes exactly the bridges of which no address is blocked there |
| BridgeSplitter.PickFindsShare | bridgedb/bridgerings.py:506-510 | bisection over the running sums lands on a valid ring, the one whose share covers the residue |
| BridgeSplitter.SharesAreExact | bridgedb/bridgerings.py:434-446 | ring i is chosen by exactly p_i of the residues, zero shares included |
| BridgeSplitter.MembersAfterInsert | bridgedb/bridgerings.py:457-521 | who is in which ring after an insertion |
| BridgeSplitter.InsertKeepsOneRingExactly | bridgedb/bridgerings.py:479-521 | after an insertion every bridge is still in at most one ring, the recorded one, if and only if the inserted bridge was not held in a named ring that it falls away from without leaving |
| BridgeSplitter.RunsKeepOneRing | bridgedb/bridgerings.py:457-521 | from empty rings and any database, one ring per bridge holds over every run without such bridges |
| BridgeSplitter.DefaultsNeverStray | bridgedb/bridgerings.py:500-510 | bridges that always ask for "any" never stray, however often they return |
| BridgeSplitter.AnyAfterNamedStrays | bridgedb/bridgerings.py:479-510 | from empty rings, every bridge that asks for a named ring other than the one of its hash and then for "any" ends in both |
| PoolRuns.AsksForNone | bridgedb/bridgerings.py:487-498 | a running bridge that asks for "none" is in no pool afterwards |
| PoolRuns.AsksByName | bridgedb/bridgerings.py:474-521 | a running bridge that asks for a pool by name is in that pool only, and recorded there |
| PoolRuns.AsksForAnything | bridgedb/bridgerings.py:500-521 | after any other request a bridge that does not stray is in the pool of its hash only |
| PoolRuns.AsksForNothing | bridgedb/bridgerings.py:467-521 | a bridge without a request stays where the database knows it, or goes where its hash says |
| PoolRuns.LastInsertionDecides | bridgedb/bridgerings.py:457-521 | after every run from empty pools in which nobody strays, a bridge is exactly where its last insertion put it: in no pool, in the one it named, in the one the database knew, or in that of its hash |
| PoolRuns.NeverRan | bridgedb/bridgerings.py:463-465 | a bridge that never ran is in no pool after any run |
| PoolRuns.PoolsGetTheirShares | bridgedb/bridgerings.py:504-510 | of any bridges with consecutive numbers, k times as many as the shares add up to, exactly k times its share fall to each pool |
| BridgeSplitter.PlacedOneMore | bridgedb/bridgerings.py:428-432 | the sizes of the rings add up to the number of placed bridges if and only if no bridge is in two of them |
| BridgeSplitter.Holder.Insert | bridgedb/bridgerings.py:391-394 | a fingerprint is held once |
| BridgeSplitter.Holder.Remove | bridgedb/bridgerings.py:382-389 | a fingerprint that is taken out is gone; a missing one changes nothing |
| BridgeSplitter.BridgeSplitter.AddRing | bridgedb/bridgerings.py:434-446 | the running sums stay those of the shares |
| BridgeSplitter.BridgeSplitter.ChooseByHash | bridgedb/bridgerings.py:506-510 | the ring that the share of the bridge's residue belongs to |
| BridgeSplitter.BridgeSplitter.InsertBridge | bridgedb/bridgerings.py:457-521 | rings and database change as the specification says, in every branch |
| BridgeSplitter.BridgeSplitter.Len | bridgedb/bridgerings.py:428-432 | the sum over the rings is at least the number of placed bridges, and equal to it if and only if no bridge is in two rings |
| Storage.Database.GetBridgeDistributor | bridgedb/Storage.py:157-175 | the recorded pool, if it is still one |
| Storage.Database.InsertBridgeAndGetRing | bridgedb/Storage.py:177-211 | records the pool and the times, keeps the first sighting, and replaces unknown pools by "unallocated" |
| BridgeLines.UnblockedAllOrNone | bridgedb/bridges.py:1187-1195 | transports of one name are blocked together, so an index below the number of unblocked ones finds an unblocked one |
| BridgeLines.TransportChosen | bridgedb/bridges.py:1170-1201 | a transport is chosen exactly when one of the name and version exists and the name is blocked nowhere, and then it fits |
| BridgeLines.AdmissionAnswersTransports | bridgedb/bridges.py:1333-1370 | a bridge that passes the filters of a request for a transport other than "vanilla" yields a fitting, unblocked line if and only if the transport is spelled in lower case |
| BridgeLines.AdmissionAnswersVanilla | bridgedb/bridges.py:1221-1246 | an admitted bridge whose addresses are consistent (there, with a port, tagged with their own version) yields an unblocked vanilla line if and only if no country is named, or the primary address has the version asked for, or some OR address of that version is unblocked |
| BridgeLines.VanillaFitsIff | bridgedb/bridges.py:1203-1246 | for any bridge, consistent or not: every client gets a fitting vanilla line if and only if some address with the right tag is unblocked and all such addresses are there, have a port and are of the tagged version |
| BridgeLines.SpelledOutVanillaAnswers | bridgedb/bridges.py:1170-1201 | a request that spells out "vanilla" yields a line if and only if the spelling is in lower case and the bridge has a transport of this name and version that is blocked nowhere; such a line fits |
| BridgeLines.TransportsInTurn | bridgedb/bridges.py:1176-1195 | clients get the unblocked transports that fit in turn, in the order in which the bridge lists them |
| BridgeLines.AddressesInTurn | bridgedb/bridges.py:1221-1246 | clients without a transport get the unblocked addresses in turn, the OR addresses first and the primary one last |
| BridgeLines.OtherSpellingCanFail | bridgedb/bridges.py:1178-1185 | an admitted bridge for a transport spelled with a capital letter that yields no line |
| BridgeLines.OtherVersionCanFail | bridgedb/filters.py:269-292 | a bridge that is admitted and yields no line |
| BridgeLines.SpelledOutVanillaCanFail | bridgedb/filters.py:269-292 | a request for "vanilla" by name that is admitted and fails |
| BridgeLines.LiveBridge.AddBlockByKey | bridgedb/bridges.py:1372-1383 | blocks exactly one key in one country |
| EmailDistributor.EmailDistributor.GetBridges | bridgedb/distributors/email/distributor.py:133-191 | tables and outcome in every branch; the warning INSERT never meets an existing key |
| EmailDistributor.EmailDistributor.CleanDatabase | bridgedb/distributors/email/distributor.py:193-205 | exactly the answer rows of minutes before the waiting time at the first clock reading and the warning rows of those at the second are deleted |
| EmailDistributor.TablesRemember | bridgedb/Storage.py:213-232 | over every run the tables know the last answer, unless the waiting time is over |
| EmailDistributor.AnsweredIffDue | bridgedb/distributors/email/distributor.py:145-165 | whether a request is answered depends on the last answer alone |
| EmailDistributor.RateLimit | bridgedb/distributors/email/distributor.py:151-165 | two answers to a client are more than three hours apart, from the start of the minute of the first |
| EmailDistributor.ThinningKeepsAnswers | bridgedb/distributors/email/distributor.py:145-205 | dropping any refused requests and any cleanings from a run changes no answer |
| EmailDistributor.OneWarningBetweenAnswers | bridgedb/distributors/email/distributor.py:157-169 | between two warnings to a client there is an answer, despite expiry |
| EmailWarnings.WhatMailsGet | bridgedb/distributors/email/distributor.py:133-169 | over every run: which mails are bad, which are answered (whitelisted, first, or more than three hours after the minute of the last answer), and of the refused ones which are ignored and which are warned |
| EmailWarnings.IgnoredIffWarningCounts | bridgedb/distributors/email/distributor.py:157-169 | a refused client is ignored if and only if an earlier warning still counts, that is, no cleaning has reached its minute and no answer was given since while none was on record; told from events and outcomes, without the tables |
| EmailWarnings.FirstRefusalIsWarned | bridgedb/distributors/email/distributor.py:157-169 | the first refusal after an answer to a client without an answer on record is a warning |
| EmailWarnings.TablesHoldRecord | bridgedb/Storage.py:213-232 | at every point of every run the two tables hold exactly what the history leaves on record |
| EmailWarnings.AnswerOnRecordIs | bridgedb/Storage.py:213-232 | an answer is on record if and only if it is the last one and no cleaning has reached its minute |
| Measurements.ShouldSkip | bridgedb/Storage.py:433-459 | newer rows of the other verdict win, one older row is taken out |
| Measurements.GetBlockedBridgesFromSql | bridgedb/Storage.py:418-485 | the loop over the rows computes the report |
| Measurements.RunsSettle | bridgedb/Storage.py:461-480 | each endpoint is reconciled on its own |
| Measurements.ReportedIsSound | bridgedb/Storage.py:418-485 | everything reported came from a blocked row |
| Measurements.UnbeatenIsReported | bridgedb/Storage.py:418-485 | a blocked row that no reachable row of its endpoint beats is reported, in any order of rows |
| Measurements.ReportIsExact | bridgedb/Storage.py:418-485 | the report is exact when an endpoint's rows come newest first, days with several rows included, or there is at most one per verdict |
| Measurements.ReportIsRightThroughoutIffGuarded | bridgedb/Storage.py:461-480 | the report is right after every prefix of the rows if and only if every row meets a guard on what is kept before it |
| Measurements.ReportIsRightIff | bridgedb/Storage.py:418-485 | for rows in any order the returned report is right about an endpoint if and only if its last row meets the guard while the report was right, or else repairs it: a blocked row that no reachable row beats, or a reachable row that clears the only kept one |
| GrowingReports.ReportedIffExcess | bridgedb/Storage.py:418-485 | when dates only grow an endpoint is reported if and only if from some day on its blocked rows outnumber the reachable rows of later days |
| GrowingReports.GrowingReportIsRightIff | bridgedb/Storage.py:418-485 | when dates only grow the returned report is right about an endpoint if and only if a row of its latest day is blocked or on no day there is such an excess |
| GrowingReports.KeptIsLargestExcess | bridgedb/Storage.py:444-458 | the number of kept blocked rows is the largest such excess |
| Measurements.StaleRowIsReported | bridgedb/Storage.py:475-480 | growing rows for which the report is wrong: a reachable row clears one of two old blocked rows |
| Measurements.OldRowIsBelieved | bridgedb/Storage.py:444-458 | mixed rows for which the report is wrong: an old blocked row is believed against a newer reachable one |
| Connection.RunsKeepInvariant | bridgedb/Storage.py:518-565 | the protocol invariant holds after every run of single steps of any threads |
| Connection.StepKeepsInvariant | bridgedb/Storage.py:542-565 | every step of every thread keeps it |
| Connection.OneThreadInside | bridgedb/Storage.py:543-553 | all threads inside a block are the same thread |
| Connection.BoundariesAgree | bridgedb/Storage.py:545-565 | between calls both counters equal the depth of the thread inside, and all is at rest when there is none |
| Connection.LiveWhileInside | bridgedb/Storage.py:548-562 | the connection is open exactly while some block is being executed |
| Connection.OpensMatchCloses | bridgedb/Storage.py:548-562 | the assertion never fails, and opens and closes alternate by the same thread |
| Connection.OpenAndCloseAreOutermost | bridgedb/Storage.py:548-562 | opening starts and closing ends an outermost block |
| Connection.OwnerCanContinue | bridgedb/Storage.py:544-565 | the lock never blocks its owner |
| Schedule.IntervalsTileTime | bridgedb/schedule.py:238-332 | start(w) <= ceil(w) < next(w), start(start(w)) = start(w), start(next(w)) = next(w), for all periods and month counts 1 to 12 (months from 1970 to 9998) |
| Schedule.LargeMonthCounts | bridgedb/schedule.py:309-332 | for larger month counts intervals tile a moment if and only if one subtraction of 12 months is enough |
| Schedule.TwoYearsNeverTile | bridgedb/schedule.py:317-324 | month counts from 24 on never tile any moment |
| Schedule.MonthCountsThatTile | bridgedb/schedule.py:309-332 | the intervals of a month count tile all moments from 1970 to 9998 if and only if the count is at most 12 |
| Schedule.StartOfMonths | bridgedb/schedule.py:251-257 | month intervals start at the first second of the last month whose number is a multiple of the count |
| Schedule.NextOfMonths | bridgedb/schedule.py:309-332 | month intervals end count months after they start, exactly while that month is one that datetime knows after a single subtraction of 12; otherwise an error is raised |
| Schedule.FixedIntervals | bridgedb/schedule.py:258-332 | intervals of seconds, minutes, hours and days start at multiples of their length since the epoch and end one length later |
| Schedule.DaysAreCalendarDays | bridgedb/schedule.py:258-271 | the interval of one day starts at midnight of the date of the moment |
| Schedule.PeriodNames | bridgedb/schedule.py:212-236 | which texts name which period: its English name in any case, singular or plural, and nothing else |
| Schedule.ScheduledInterval.SetIntervalCount | bridgedb/schedule.py:190-210 | a missing count is 1, counts below 1 become 1, what is no number is refused |
| Schedule.ScheduledInterval.SetIntervalPeriod | bridgedb/schedule.py:212-236 | plurals and case are ignored, weeks become sevens of days, unknown periods are refused without effect |
| Schedule.ScheduledInterval.IntervalStart | bridgedb/schedule.py:238-271 | the branches compute Start; for supported moments the start is at or before the moment and starts its own interval |
| Schedule.ScheduledInterval.NextIntervalStarts | bridgedb/schedule.py:309-332 | the branches compute Next; for supported moments the end is after the moment and starts an interval |
| Calendar.FromOrdinalInvertsOrdinal | bridgedb/schedule.py:36-52 | day numbers and valid dates correspond one to one, over all leap years |
| Calendar.OrdinalMonotone | bridgedb/schedule.py:36-44 | later dates have larger day numbers |
| Calendar.FromOrdinalMonotone | bridgedb/schedule.py:46-52 | later day numbers are later dates |
| Calendar.MonthsAlternate | bridgedb/schedule.py:36-44 | months other than February have 31 and 30 days in turn, anew from August |
| Calendar.FebruaryLeaps | bridgedb/schedule.py:36-44 | February has 29 days in every fourth year, of the last years of centuries in every fourth |
| Captcha.OpenOfCreate | bridgedb/captcha.py:284-299 | check recovers time and answer of a challenge created at a time of one to twelve digits |
| Captcha.OpenExactly | bridgedb/captcha.py:284-313 | a challenge opens if and only if it is the HMAC of what follows, and this is the encryption of a blob with a readable time and answer |
| Captcha.ForgedIsRejected | bridgedb/captcha.py:284-313 | with any other HMAC, and for the empty solution, nothing is accepted at any time |
| Captcha.RoundTripExactly | bridgedb/captcha.py:258-376 | check accepts exactly the case-insensitively equal solutions before the end of the creation half-hour, if and only if the creation time is between 1 and 10^12 - 1, or 0 with an empty answer |
| Captcha.AcceptedIsFresh | bridgedb/captcha.py:297-313 | what is accepted is under 1800 seconds old; from the end of the half-hour on every solution raises the expiry error, or the error of printing its date |
| Captcha.OpenAtZero | bridgedb/captcha.py:296-297 | at time zero all digits are stripped and nothing opens |
| Captcha.OpenAfterLimit | bridgedb/captcha.py:371-376 | from 10^12 on the answer that comes back starts with digits of the time |
| EditDistance.LevenshteinDistance | bridgedb/util.py:169-206 | the memoised recursion over offsets computes the plain distance |
| EditDistance.MemoisedDistance | bridgedb/util.py:189-206 | every recursive call returns the distance of the substrings that it names, and the memo holds nothing but such distances |
| EditDistance.PrintedKeyInjective | bridgedb/util.py:193 | printed memo keys are different for different substrings |
| EditDistance.DistanceIsLowerBound | bridgedb/util.py:169-206 | no edit script is cheaper than the distance |
| EditDistance.DistanceIsReached | bridgedb/util.py:169-206 | some edit script costs the distance |
| EditDistance.DistanceZeroIffEqual | bridgedb/util.py:169-206 | zero if and only if equal |
| EditDistance.DistanceSymmetric | bridgedb/util.py:169-206 | symmetry |
| EditDistance.DistanceTriangle | bridgedb/util.py:169-206 | triangle inequality |
| EditDistance.DistanceBounds | bridgedb/util.py:169-206 | between the difference of the lengths and the longer length |
| Headers.AddFallbacksInPlace | bridgedb/parse/headers.py:61-74 | the loop that inserts into the list its own iterator walks ends, never appends at the end, and computes what a walk over the original list computes |
| Headers.WalkAgrees | bridgedb/parse/headers.py:62-71 | an insertion before or behind the walked position changes nothing for the rest of the walk |
| Headers.FallbacksCorrect | bridgedb/parse/headers.py:61-74 | the client's codes keep their order, every locale code's base is there, and each missing base stands once, behind the first code that starts with it, with nothing but other added bases in between |
| FallbackOrder.FallbacksAreLaidOut | bridgedb/parse/headers.py:61-74 | the result in closed form: each of the client's codes is followed by the missing bases for which it is the first code that starts with them, the last one met first |
| FallbackOrder.DirectlyBehindIffLatest | bridgedb/parse/headers.py:67-71 | an added base stands directly behind the first code that starts with it if and only if no base met later has the same first code |
| Headers.ParseAcceptLanguage | bridgedb/parse/headers.py:25-78 | qualities are cut off, hyphens become underscores, a part with two semicolons raises ValueError (header of section 14.4 of RFC 2616) |
| Headers.CodesAreReadBack | bridgedb/parse/headers.py:50-59 | codes that a client writes, with or without qualities, are read back in order |
| Headers.RefusedIffTwoSemicolons | bridgedb/parse/headers.py:53-59 | a header is refused if and only if some part has two semicolons or more |
| Headers.BaseIsBeforeHyphen | bridgedb/parse/headers.py:62-63 | the base of a locale code is the text before the first hyphen |
| Headers.UnderscoresForHyphens | bridgedb/parse/headers.py:76-78 | underscores stand exactly where hyphens or underscores were, all else is unchanged |

## Left out

- Network and user interfaces, templates, translations, QR codes, logging, log scrubbing, metrics, configuration, versioneer: input, output and presentation.
- SQL text, files and rollbacks: each table is a map and each method one committed statement.
- The internals of HMAC, SHA-1, RSA, base64, UTF-8, GeoIP, Stem and ipaddr: function parameters with laws.
- `bridgedb/Stability.py`: its floating point averages are not part of this model.
- Non-blocking `getDB`, databases that fail to open, and `clearGlobalDB`: outside the normal runs of the protocol.
- `dumpAssignments`, `getBridgeByID`, ring names and descriptions: they only serve reports.
- The forced flag "running": ring parameters accept it, `BridgeRing.insert` asserts that it does not occur. The range checks of `BridgeRingParameters` are left out too.
- Replacing a distributor's hashring on reload (bridgedb/main.py:239-241): the model's distributor keeps one hashring.
- The Moat distributor: it is the web distributor under another name.
- Mutation of a bridge object after it was inserted (`setBlockedIn` and the descriptor updates): rings hold bridges as values, and a changed bridge comes in by insertion. `_addBlockByKey` is modelled on its own.
- Empty transport names and countries in requests: the patterns that requests are matched against let none through.
- `GimpCaptcha.get`, ReCaptcha, and `int()` of timestamps with signs, spaces or underscores: challenges carry digits.
- EmailDistributor.EmailDistributor.GetBridges: stops at the decision whether to answer; the ring lookup that follows is the same as in the web distributor without subring filters.
- FilteredSplitter.FilteredBridgeSplitter.AddRing: takes empty rings, as all callers pass new ones.
- BridgeSplitter.Holder: stands for any ring of the splitter by the fingerprints that it holds; the pool distributors answer the same calls.
- EditDistance.MemoisedDistance: the memo is keyed by the four numbers instead of their printed text, which PrintedKeyInjective shows to be the same.
- HttpsRuns.Run: areas are values instead of printed subnets, and separation is about fingerprints.
- Measurements.ReportIsRightIff: for rows in mixed order the condition goes along the rows and speaks of what is kept before each; a closed form over the rows is stated only for rows that grow or fall in date.
