/** The rings that a distributor keeps for sets of filters (FilteredBridgeSplitter of
    bridgedb/bridgerings.py), and when they agree with a scan of all bridges. */
module FilteredSplitter {
  import opened Common
  import opened Storage
  import opened BridgeData
  import opened Blocking
  import opened Filters
  import opened Windows
  import opened Answers
  import opened Hashring

  // ---------------------------------------------------------------- a scan of all bridges

  /** Identities in circulation have different places on a ring. */
  ghost predicate NoCollisions(hmac: Fingerprint -> Digest, ids: set<Fingerprint>)
  {
    forall x, y :: x in ids && y in ids && hmac(x) == hmac(y) ==> x == y
  }

  /** Bridges are stored under their fingerprints. */
  ghost predicate WellStored(bridges: map<Fingerprint, Bridge>, ids: set<Fingerprint>)
  {
    forall fp :: fp in bridges ==> fp in ids && bridges[fp].fingerprint == fp
  }

  /** What a ring for a filter set should hold: the stored bridges that pass, at their places. */
  ghost function Scan(bridges: map<Fingerprint, Bridge>, h: Hmacs, fs: set<Filter>,
                      hmac: Fingerprint -> Digest): map<nat, Bridge>
    requires NoCollisions(hmac, bridges.Keys)
  {
    map fp | fp in bridges && PassesAll(h, fs, bridges[fp]) :: hmac(fp) := bridges[fp]
  }

  lemma ScanAt(bridges: map<Fingerprint, Bridge>, h: Hmacs, fs: set<Filter>,
               hmac: Fingerprint -> Digest, ids: set<Fingerprint>, fp: Fingerprint)
    requires NoCollisions(hmac, ids) && WellStored(bridges, ids) && fp in ids
    ensures NoCollisions(hmac, bridges.Keys)
    ensures hmac(fp) in Scan(bridges, h, fs, hmac) <==> fp in bridges && PassesAll(h, fs, bridges[fp])
    ensures hmac(fp) in Scan(bridges, h, fs, hmac) ==> Scan(bridges, h, fs, hmac)[hmac(fp)] == bridges[fp]
  {
    hide PassesAll;
  }

  lemma ScanElsewhere(bridges: map<Fingerprint, Bridge>, bridges': map<Fingerprint, Bridge>, h: Hmacs,
                      fs: set<Filter>, hmac: Fingerprint -> Digest, fp: Fingerprint, k: nat)
    requires NoCollisions(hmac, bridges.Keys) && NoCollisions(hmac, bridges'.Keys)
    requires bridges - {fp} == bridges' - {fp} && k != hmac(fp)
    ensures k in Scan(bridges, h, fs, hmac) ==>
      k in Scan(bridges', h, fs, hmac) && Scan(bridges', h, fs, hmac)[k] == Scan(bridges, h, fs, hmac)[k]
  {
    hide PassesAll;
    if k in Scan(bridges, h, fs, hmac) {
      var x :| x in bridges && PassesAll(h, fs, bridges[x]) && hmac(x) == k;
      assert x in bridges - {fp};
      assert x in bridges' && bridges'[x] == bridges[x];
    }
  }

  /** Only the place of a bridge is touched when the bridge comes or goes. */
  lemma ScansDiffer(bridges: map<Fingerprint, Bridge>, bridges': map<Fingerprint, Bridge>, h: Hmacs,
                    fs: set<Filter>, hmac: Fingerprint -> Digest, fp: Fingerprint)
    requires NoCollisions(hmac, bridges.Keys) && NoCollisions(hmac, bridges'.Keys)
    requires bridges - {fp} == bridges' - {fp}
    ensures Scan(bridges, h, fs, hmac) - {hmac(fp)} == Scan(bridges', h, fs, hmac) - {hmac(fp)}
  {
    hide Scan;
    forall k | k != hmac(fp)
      ensures k in Scan(bridges, h, fs, hmac) <==> k in Scan(bridges', h, fs, hmac)
      ensures k in Scan(bridges, h, fs, hmac) ==>
        Scan(bridges', h, fs, hmac)[k] == Scan(bridges, h, fs, hmac)[k]
    {
      ScanElsewhere(bridges, bridges', h, fs, hmac, fp, k);
      ScanElsewhere(bridges', bridges, h, fs, hmac, fp, k);
    }
  }

  /** How the scan changes when a bridge comes. */
  lemma ScanAfterInsert(bridges: map<Fingerprint, Bridge>, h: Hmacs, fs: set<Filter>,
                        hmac: Fingerprint -> Digest, ids: set<Fingerprint>, b: Bridge)
    requires NoCollisions(hmac, ids) && WellStored(bridges, ids) && b.fingerprint in ids
    ensures
      var bridges' := bridges[b.fingerprint := b];
      && WellStored(bridges', ids)
      && NoCollisions(hmac, bridges.Keys) && NoCollisions(hmac, bridges'.Keys)
      && Scan(bridges', h, fs, hmac) ==
           if PassesAll(h, fs, b) then Scan(bridges, h, fs, hmac)[hmac(b.fingerprint) := b]
           else Scan(bridges, h, fs, hmac) - {hmac(b.fingerprint)}
  {
    hide PassesAll, WellStored, Scan;
    var fp, bridges' := b.fingerprint, bridges[b.fingerprint := b];
    StoredMore(bridges, ids, b);
    StoredIn(bridges, ids);
    StoredIn(bridges', ids);
    ScansDiffer(bridges, bridges', h, fs, hmac, fp);
    ScanAt(bridges', h, fs, hmac, ids, fp);
    SameElsewhere(Scan(bridges, h, fs, hmac), Scan(bridges', h, fs, hmac), hmac(fp), b);
  }

  lemma SameElsewhere(m: map<nat, Bridge>, m': map<nat, Bridge>, k: nat, b: Bridge)
    requires m - {k} == m' - {k}
    ensures k !in m' ==> m' == m - {k}
    ensures k in m' && m'[k] == b ==> m' == m[k := b]
  {
    assert k !in m' ==> m' - {k} == m';
    assert k in m' && m'[k] == b ==> m' == (m' - {k})[k := b];
    assert (m - {k})[k := b] == m[k := b];
  }

  lemma StoredMore(bridges: map<Fingerprint, Bridge>, ids: set<Fingerprint>, b: Bridge)
    requires WellStored(bridges, ids) && b.fingerprint in ids
    ensures WellStored(bridges[b.fingerprint := b], ids)
  {
  }

  lemma StoredIn(bridges: map<Fingerprint, Bridge>, ids: set<Fingerprint>)
    requires WellStored(bridges, ids)
    ensures bridges.Keys <= ids
  {
  }

  /** How the scan changes when a bridge goes. */
  lemma ScanAfterRemove(bridges: map<Fingerprint, Bridge>, h: Hmacs, fs: set<Filter>,
                        hmac: Fingerprint -> Digest, ids: set<Fingerprint>, b: Bridge)
    requires NoCollisions(hmac, ids) && WellStored(bridges, ids) && b.fingerprint in ids
    ensures
      var bridges' := bridges - {b.fingerprint};
      && WellStored(bridges', ids)
      && NoCollisions(hmac, bridges.Keys) && NoCollisions(hmac, bridges'.Keys)
      && Scan(bridges', h, fs, hmac) == Scan(bridges, h, fs, hmac) - {hmac(b.fingerprint)}
  {
    hide PassesAll, Scan;
    var fp, bridges' := b.fingerprint, bridges - {b.fingerprint};
    ScansDiffer(bridges, bridges', h, fs, hmac, fp);
    ScanAt(bridges', h, fs, hmac, ids, fp);
    SameElsewhere(Scan(bridges, h, fs, hmac), Scan(bridges', h, fs, hmac), hmac(fp), b);
  }

  // ---------------------------------------------------------------- histories

  /** What a history of insertions stores: the last running version of each bridge. */
  ghost function Stored(history: seq<Bridge>): map<Fingerprint, Bridge>
  {
    if history == [] then map[]
    else
      var n := |history| - 1;
      if history[n].running then Stored(history[..n])[history[n].fingerprint := history[n]]
      else Stored(history[..n])
  }

  ghost predicate OneVersion(history: seq<Bridge>)
  {
    forall b, c :: b in history && c in history && b.running && c.running && b.fingerprint == c.fingerprint ==> b == c
  }

  lemma {:induction false} StoredVersions(history: seq<Bridge>)
    requires OneVersion(history)
    ensures forall b :: b in history && b.running ==>
      b.fingerprint in Stored(history) && Stored(history)[b.fingerprint] == b
    ensures forall fp :: fp in Stored(history) ==>
      Stored(history)[fp] in history && Stored(history)[fp].running && Stored(history)[fp].fingerprint == fp
  {
    if history != [] {
      var n := |history| - 1;
      StoredVersions(history[..n]);
      assert forall b :: b in history <==> b in history[..n] || b == history[n];
    }
  }

  /** While the bridges keep their versions, neither the order nor the number of their insertions can
      be seen in what is stored, and so not in any ring that agrees with a scan of it. */
  lemma InsertionOrderIsInvisible(p: seq<Bridge>, q: seq<Bridge>)
    requires OneVersion(p) && forall b :: b in p <==> b in q
    ensures Stored(p) == Stored(q)
  {
    StoredVersions(p);
    StoredVersions(q);
    forall fp
      ensures fp in Stored(p) <==> fp in Stored(q)
      ensures fp in Stored(p) && fp in Stored(q) ==> Stored(p)[fp] == Stored(q)[fp]
    {
      assert fp in Stored(p) ==> Stored(p)[fp] in q;
      assert fp in Stored(q) ==> Stored(q)[fp] in p;
    }
  }

  // ---------------------------------------------------------------- one cached ring

  /** A cached ring with its filter function. */
  datatype Entry = Entry(test: Cached, ring: BridgeRing)

  /** The ring holds exactly what a scan would find. */
  ghost predicate RingAgrees(e: Entry, bridges: map<Fingerprint, Bridge>, h: Hmacs, fs: set<Filter>)
    reads e.ring.Repr()
  {
    e.ring.IsExact() && NoCollisions(e.ring.hmac, bridges.Keys) && e.ring.bridges == Scan(bridges, h, fs, e.ring.hmac)
  }

  /** The new version of a bridge still passes where the stored version passed, and still has every
      property that put the stored version into a subring. */
  ghost predicate Welcome(bridges: map<Fingerprint, Bridge>, h: Hmacs, fs: set<Filter>, wants: seq<Want>, b: Bridge)
  {
    b.fingerprint in bridges && PassesAll(h, fs, bridges[b.fingerprint]) ==>
      && PassesAll(h, fs, b)
      && forall i :: 0 <= i < |wants| && Matches(wants[i], bridges[b.fingerprint]) ==> Matches(wants[i], b)
  }

  ghost predicate Tests(h: Hmacs, c: Cached, fs: set<Filter>)
  {
    forall b :: CachedPasses(h, c, b) == PassesAll(h, fs, b)
  }

  /** What every operation keeps for a cached ring: its function tests its filter set, and whatever
      the ring holds passed. */
  ghost predicate EntryOk(e: Entry, h: Hmacs, fs: set<Filter>, ids: set<Fingerprint>)
    reads e.ring.Repr()
  {
    && e.ring.Valid() && NoCollisions(e.ring.hmac, ids) && Tests(h, e.test, fs)
    && forall k :: k in e.ring.bridges ==> PassesAll(h, fs, e.ring.bridges[k])
  }

  /** One step of the loop in insert. */
  method InsertInto(e: Entry, b: Bridge, h: Hmacs, ghost fs: set<Filter>,
                    ghost bridges: map<Fingerprint, Bridge>, ghost ids: set<Fingerprint>)
    requires EntryOk(e, h, fs, ids) && WellStored(bridges, ids) && b.fingerprint in ids
    modifies e.ring.Repr()
    ensures EntryOk(e, h, fs, ids)
    ensures old(RingAgrees(e, bridges, h, fs)) ==>
      (RingAgrees(e, bridges[b.fingerprint := b], h, fs) <==> Welcome(bridges, h, fs, e.ring.wants, b))
  {
    hide PassesAll, CachedPasses, Matches, NoCollisions, WellStored, Scan;
    ghost var k := e.ring.hmac(b.fingerprint);
    ScanAt(bridges, h, fs, e.ring.hmac, ids, b.fingerprint);
    ScanAfterInsert(bridges, h, fs, e.ring.hmac, ids, b);
    if CachedPasses(h, e.test, b) {
      e.ring.Insert(b);
    } else {
      assert old(RingAgrees(e, bridges, h, fs)) ==>
        (k !in e.ring.bridges <==> e.ring.bridges - {k} == e.ring.bridges);
    }
  }

  /** The loop of addRing, over an empty ring. */
  method Populate(e: Entry, populateFrom: map<Fingerprint, Bridge>, h: Hmacs, ghost fs: set<Filter>,
                  ghost ids: set<Fingerprint>)
    requires EntryOk(e, h, fs, ids) && WellStored(populateFrom, ids)
    requires e.ring.IsExact() && e.ring.bridges == map[]
    modifies e.ring.Repr()
    ensures EntryOk(e, h, fs, ids) && RingAgrees(e, populateFrom, h, fs)
  {
    hide PassesAll, EntryOk, RingAgrees;
    var todo := populateFrom.Keys;
    assert populateFrom - todo == map[];
    EmptyAgrees(e, h, fs);
    while todo != {}
      invariant todo <= populateFrom.Keys
      invariant EntryOk(e, h, fs, ids) && RingAgrees(e, populateFrom - todo, h, fs)
      decreases todo
    {
      var fp :| fp in todo;
      ghost var done := populateFrom - todo;
      InsertInto(e, populateFrom[fp], h, fs, done, ids);
      todo := todo - {fp};
      assert populateFrom - todo == done[fp := populateFrom[fp]];
    }
    assert populateFrom - {} == populateFrom;
  }

  lemma EmptyIsOk(e: Entry, h: Hmacs, fs: set<Filter>, ids: set<Fingerprint>)
    requires e.ring.IsExact() && e.ring.bridges == map[]
    requires NoCollisions(e.ring.hmac, ids) && Tests(h, e.test, fs)
    ensures EntryOk(e, h, fs, ids)
  {
  }

  lemma EmptyAgrees(e: Entry, h: Hmacs, fs: set<Filter>)
    requires e.ring.IsExact() && e.ring.bridges == map[]
    ensures RingAgrees(e, map[], h, fs)
  {
    assert Scan(map[], h, fs, e.ring.hmac) == map[];
  }

  /** One step of the loop in remove. The bridge is removed when the version that the caller holds
      passes; what matters is whether the stored version passed. */
  method RemoveFrom(e: Entry, b: Bridge, h: Hmacs, ghost fs: set<Filter>,
                    ghost bridges: map<Fingerprint, Bridge>, ghost ids: set<Fingerprint>)
    requires EntryOk(e, h, fs, ids) && WellStored(bridges, ids) && b.fingerprint in bridges
    modifies e.ring.Repr()
    ensures EntryOk(e, h, fs, ids)
    ensures old(RingAgrees(e, bridges, h, fs)) ==>
      (RingAgrees(e, bridges - {b.fingerprint}, h, fs) <==> !PassesAll(h, fs, bridges[b.fingerprint]))
  {
    hide PassesAll, CachedPasses, Matches, NoCollisions, WellStored, Scan;
    ghost var k := e.ring.hmac(b.fingerprint);
    assert b.fingerprint in ids by { StoredIn(bridges, ids); }
    ScanAt(bridges, h, fs, e.ring.hmac, ids, b.fingerprint);
    ScanAfterRemove(bridges, h, fs, e.ring.hmac, ids, b);
    ghost var before := e.ring.bridges;
    if CachedPasses(h, e.test, b) {
      e.ring.Remove(b);
    }
    assert k !in before ==> before - {k} == before;
  }

  // ---------------------------------------------------------------- all cached rings

  ghost function ReprOf(rings: map<set<Filter>, Entry>): set<object>
  {
    set fs, r | fs in rings && r in rings[fs].ring.Repr() :: r
  }

  ghost predicate Apart(rings: map<set<Filter>, Entry>)
  {
    forall f, g :: f in rings && g in rings && f != g ==> rings[f].ring.Repr() !! rings[g].ring.Repr()
  }

  lemma ApartFrom(rings: map<set<Filter>, Entry>, fs: set<Filter>)
    requires Apart(rings) && fs in rings
    ensures forall g :: g in rings && g != fs ==> rings[g].ring.Repr() !! rings[fs].ring.Repr()
  {
  }

  lemma OneMoreApart(rings: map<set<Filter>, Entry>, fs: set<Filter>, e: Entry)
    requires Apart(rings) && fs !in rings && e.ring.Repr() !! ReprOf(rings)
    ensures Apart(rings[fs := e]) && ReprOf(rings[fs := e]) == ReprOf(rings) + e.ring.Repr()
  {
    hide BridgeRing.Repr;
    forall g | g in rings
      ensures rings[g].ring.Repr() !! e.ring.Repr()
    {
      assert rings[g].ring.Repr() <= ReprOf(rings);
    }
    forall r | r in ReprOf(rings)
      ensures r in ReprOf(rings[fs := e])
    {
      var g :| g in rings && r in rings[g].ring.Repr();
      assert rings[fs := e][g] == rings[g];
    }
    assert rings[fs := e][fs] == e;
  }

  /** The loop of insert. */
  method InsertIntoRings(rings: map<set<Filter>, Entry>, b: Bridge, h: Hmacs,
                         ghost bridges: map<Fingerprint, Bridge>, ghost ids: set<Fingerprint>)
    requires Apart(rings) && WellStored(bridges, ids) && b.fingerprint in ids
    requires forall g :: g in rings ==> EntryOk(rings[g], h, g, ids)
    modifies ReprOf(rings)
    ensures forall g :: g in rings ==> EntryOk(rings[g], h, g, ids)
    ensures forall g :: g in rings && old(RingAgrees(rings[g], bridges, h, g)) ==>
      (RingAgrees(rings[g], bridges[b.fingerprint := b], h, g) <==>
         Welcome(bridges, h, g, rings[g].ring.wants, b))
  {
    hide EntryOk, RingAgrees, Welcome, WellStored, Apart;
    var todo := rings.Keys;
    ghost var agreed := set g | g in rings && RingAgrees(rings[g], bridges, h, g);
    while todo != {}
      invariant todo <= rings.Keys
      invariant forall g :: g in rings ==> EntryOk(rings[g], h, g, ids)
      invariant forall g :: g in todo && g in agreed ==> RingAgrees(rings[g], bridges, h, g)
      invariant forall g :: g in agreed && g !in todo ==>
        (RingAgrees(rings[g], bridges[b.fingerprint := b], h, g) <==> Welcome(bridges, h, g, rings[g].ring.wants, b))
      decreases todo
    {
      var fs :| fs in todo;
      ApartFrom(rings, fs);
      InsertInto(rings[fs], b, h, fs, bridges, ids);
      todo := todo - {fs};
    }
  }

  /** The loop of remove. */
  method RemoveFromRings(rings: map<set<Filter>, Entry>, b: Bridge, h: Hmacs,
                         ghost bridges: map<Fingerprint, Bridge>, ghost ids: set<Fingerprint>)
    requires Apart(rings) && WellStored(bridges, ids) && b.fingerprint in bridges
    requires forall g :: g in rings ==> EntryOk(rings[g], h, g, ids)
    modifies ReprOf(rings)
    ensures forall g :: g in rings ==> EntryOk(rings[g], h, g, ids)
    ensures forall g :: g in rings && old(RingAgrees(rings[g], bridges, h, g)) ==>
      (RingAgrees(rings[g], bridges - {b.fingerprint}, h, g) <==> !PassesAll(h, g, bridges[b.fingerprint]))
  {
    hide EntryOk, RingAgrees, WellStored, PassesAll, Apart;
    var todo := rings.Keys;
    ghost var agreed := set g | g in rings && RingAgrees(rings[g], bridges, h, g);
    while todo != {}
      invariant todo <= rings.Keys
      invariant forall g :: g in rings ==> EntryOk(rings[g], h, g, ids)
      invariant forall g :: g in todo && g in agreed ==> RingAgrees(rings[g], bridges, h, g)
      invariant forall g :: g in agreed && g !in todo ==>
        (RingAgrees(rings[g], bridges - {b.fingerprint}, h, g) <==> !PassesAll(h, g, bridges[b.fingerprint]))
      decreases todo
    {
      var fs :| fs in todo;
      ApartFrom(rings, fs);
      RemoveFrom(rings[fs], b, h, fs, bridges, ids);
      todo := todo - {fs};
    }
  }

  class FilteredBridgeSplitter {
    const h: Hmacs
    ghost const ids: set<Fingerprint>
    var bridges: map<Fingerprint, Bridge>
    var filterRings: map<set<Filter>, Entry>

    ghost function Rings(): set<object>
      reads this
    {
      ReprOf(filterRings)
    }

    ghost predicate Valid()
      reads this, Rings()
    {
      && WellStored(bridges, ids)
      && (forall fs :: fs in filterRings ==>
            this !in filterRings[fs].ring.Repr() && EntryOk(filterRings[fs], h, fs, ids))
      && Apart(filterRings)
    }

    /** Every cached ring holds exactly what a scan of the stored bridges finds. */
    ghost predicate Agrees()
      reads this, Rings()
    {
      Valid() && forall fs :: fs in filterRings ==> RingAgrees(filterRings[fs], bridges, h, fs)
    }

    lemma IsWellStored()
      requires Valid()
      ensures WellStored(bridges, ids)
    {
    }

    lemma StoredApart(hmac: Fingerprint -> Digest)
      requires Valid() && NoCollisions(hmac, ids)
      ensures NoCollisions(hmac, bridges.Keys)
    {
    }

    lemma RingHoldsScan(fs: set<Filter>)
      requires Agrees() && fs in filterRings
      ensures NoCollisions(filterRings[fs].ring.hmac, bridges.Keys)
      ensures filterRings[fs].ring.bridges == Scan(bridges, h, fs, filterRings[fs].ring.hmac)
    {
    }

    constructor (h: Hmacs, ghost ids: set<Fingerprint>)
      ensures Agrees() && this.h == h && this.ids == ids && bridges == map[] && filterRings == map[]
    {
      this.h, this.ids, bridges, filterRings := h, ids, map[], map[];
    }

    function Len(): nat
      reads this
    {
      |bridges|
    }

    method Clear()
      modifies this
      ensures Agrees() && bridges == map[] && filterRings == map[]
    {
      bridges, filterRings := map[], map[];
    }

    /** Caches a new ring for a filter set and fills it; an old ring for the set is kept. */
    method AddRing(ring: BridgeRing, fs: set<Filter>, test: Cached, populateFrom: map<Fingerprint, Bridge>)
      returns (added: bool)
      requires Valid() && WellStored(populateFrom, ids)
      requires ring.IsExact() && ring.bridges == map[] && NoCollisions(ring.hmac, ids) && Tests(h, test, fs)
      requires ring.Repr() !! Rings() && this !in ring.Repr()
      modifies this`filterRings, ring.Repr()
      ensures Valid()
      ensures added <==> fs !in old(filterRings)
      ensures filterRings == if added then old(filterRings)[fs := Entry(test, ring)] else old(filterRings)
      ensures Rings() == old(Rings()) + if added then ring.Repr() else {}
      ensures old(Agrees()) && populateFrom == bridges ==> Agrees()
    {
      hide WellStored, PassesAll, RingAgrees, EntryOk, Apart, Tests, NoCollisions, BridgeRing.IsExact;
      if fs in filterRings {
        return false;
      }
      var e := Entry(test, ring);
      EmptyIsOk(e, h, fs, ids);
      OneMoreApart(filterRings, fs, e);
      Fill(e, fs, populateFrom);
      filterRings := filterRings[fs := e];
      return true;
    }

    /** Filling a ring that is not cached yet leaves the cached ones alone. */
    method Fill(e: Entry, ghost fs: set<Filter>, populateFrom: map<Fingerprint, Bridge>)
      requires Valid() && WellStored(populateFrom, ids) && EntryOk(e, h, fs, ids)
      requires e.ring.IsExact() && e.ring.bridges == map[]
      requires e.ring.Repr() !! Rings() && this !in e.ring.Repr()
      modifies e.ring.Repr()
      ensures Valid() && (old(Agrees()) ==> Agrees())
      ensures EntryOk(e, h, fs, ids) && RingAgrees(e, populateFrom, h, fs)
    {
      hide WellStored, PassesAll, RingAgrees, EntryOk, Apart, BridgeRing.IsExact, Valid, Agrees;
      Populate(e, populateFrom, h, fs, ids);
    }

    /** Stores a running bridge and offers it to every cached ring. The rings still agree with a
        scan exactly when no ring that held the stored version has reason to turn the new one away. */
    method Insert(b: Bridge)
      requires Valid() && b.fingerprint in ids
      modifies this, Rings()
      ensures Valid() && filterRings == old(filterRings)
      ensures bridges == if b.running then old(bridges)[b.fingerprint := b] else old(bridges)
      ensures old(Agrees()) ==>
        (Agrees() <==> b.running ==>
           forall fs :: fs in filterRings ==> Welcome(old(bridges), h, fs, filterRings[fs].ring.wants, b))
    {
      hide EntryOk, RingAgrees, Welcome, WellStored;
      if !b.running {
        return;
      }
      StoredMore(bridges, ids, b);
      ghost var before := bridges;
      bridges := bridges[b.fingerprint := b];
      InsertIntoRings(filterRings, b, h, before, ids);
    }

    /** Forgets a bridge and takes it out of the cached rings that it passes. The rings still agree
        with a scan exactly when none of them held the stored version: a ring keeps the key. */
    method Remove(b: Bridge)
      requires Valid()
      modifies this, Rings()
      ensures Valid() && filterRings == old(filterRings)
      ensures bridges == old(bridges) - {b.fingerprint}
      ensures old(Agrees()) ==>
        (Agrees() <==> b.fingerprint in old(bridges) ==>
           forall fs :: fs in filterRings ==> !PassesAll(h, fs, old(bridges)[b.fingerprint]))
    {
      hide EntryOk, RingAgrees, Welcome, PassesAll;
      if b.fingerprint !in bridges {
        assert bridges - {b.fingerprint} == bridges;
        return;
      }
      ghost var before := bridges;
      bridges := bridges - {b.fingerprint};
      RemoveFromRings(filterRings, b, h, before, ids);
    }

    /** Asking a cached ring. */
    method Ask(fs: set<Filter>, pos: nat, n: nat) returns (answer: Option<seq<Bridge>>)
      requires Valid() && fs in filterRings && pos < DIGEST_SPACE
      modifies Rings()
      ensures Valid()
      ensures answer.Some? ==> forall b :: b in answer.value ==> PassesAll(h, fs, b)
      ensures old(Agrees()) ==>
        && Agrees() && filterRings[fs].ring.bridges == old(filterRings[fs].ring.bridges)
        && answer == Answer(filterRings[fs].ring.bridges, filterRings[fs].ring.wants, pos, n, true)
    {
      hide EntryOk, RingAgrees, WellStored, PassesAll, Apart;
      ApartFrom(filterRings, fs);
      answer := AskEntry(filterRings[fs], pos, n, h, fs, ids, bridges);
    }
  }

  method AskEntry(e: Entry, pos: nat, n: nat, h: Hmacs, ghost fs: set<Filter>, ghost ids: set<Fingerprint>,
                  ghost bridges: map<Fingerprint, Bridge>)
    returns (answer: Option<seq<Bridge>>)
    requires EntryOk(e, h, fs, ids) && pos < DIGEST_SPACE
    modifies e.ring.Repr()
    ensures EntryOk(e, h, fs, ids)
    ensures e.ring.bridges == old(e.ring.bridges)
    ensures answer.Some? ==> forall b :: b in answer.value ==> PassesAll(h, fs, b)
    ensures old(RingAgrees(e, bridges, h, fs)) ==>
      RingAgrees(e, bridges, h, fs) && answer == Answer(e.ring.bridges, e.ring.wants, pos, n, true)
  {
    hide PassesAll, Finish;
    ghost var chosen := ChosenKeys(e.ring.Here(), e.ring.Subs(), e.ring.wants, pos, n);
    answer := e.ring.GetBridges(pos, n, true);
    if answer.Some? {
      forall b | b in answer.value
        ensures PassesAll(h, fs, b)
      {
        AnswersAreHeld(e.ring.bridges, chosen, n, true, b);
      }
    }
  }

  // ---------------------------------------------------------------- runs that end in disagreement

  /** A bridge with one address of an IP version. */
  function PlainBridge(version: int): Bridge
  {
    Bridge("f", Some(Address(version, 1)), 443, [], [], map[], true, true, "any")
  }

  lemma PassesItsVersion(h: Hmacs, v: int)
    requires v == 4 || v == 6
    ensures PassesAll(h, {ByIPv(4)}, PlainBridge(v)) <==> v == 4
  {
    var b := PlainBridge(v);
    assert AllVanillaAddresses(b) == [OrAddress(b.address, 443, v)];
    assert HasIPv(4, b) <==> v == 4;
    assert PassesAll(h, {ByIPv(4)}, b) <==> Passes(h, ByIPv(4), b);
  }

  /** A splitter with one cached ring, which holds an IPv4 bridge and agrees with a scan. */
  method HoldOneBridge(h: Hmacs, hmac: Fingerprint -> Digest) returns (splitter: FilteredBridgeSplitter)
    ensures fresh(splitter) && fresh(splitter.Rings()) && splitter.Agrees()
    ensures splitter.h == h && splitter.ids == {"f"} && splitter.bridges == map["f" := PlainBridge(4)]
    ensures splitter.filterRings.Keys == {{ByIPv(4)}}
  {
    hide PassesAll, EntryOk, RingAgrees, Apart;
    splitter := new FilteredBridgeSplitter(h, {"f"});
    var ring := new BridgeRing(hmac, []);
    OneFilterTests(h);
    var added := splitter.AddRing(ring, {ByIPv(4)}, One(ByIPv(4)), map[]);
    splitter.Insert(PlainBridge(4));
  }

  lemma OneFilterTests(h: Hmacs)
    ensures Tests(h, One(ByIPv(4)), {ByIPv(4)})
  {
    forall b
      ensures CachedPasses(h, One(ByIPv(4)), b) == PassesAll(h, {ByIPv(4)}, b)
    {
    }
  }

  /** The bridge returns with an IPv6 address: its old version stays in the ring. */
  method ReturnInOtherVersion(h: Hmacs, hmac: Fingerprint -> Digest) returns (splitter: FilteredBridgeSplitter)
    ensures splitter.Valid() && !splitter.Agrees()
  {
    hide PassesAll, EntryOk, RingAgrees, Apart, WellStored;
    splitter := HoldOneBridge(h, hmac);
    PassesItsVersion(h, 4);
    PassesItsVersion(h, 6);
    assert {ByIPv(4)} in splitter.filterRings;
    splitter.Insert(PlainBridge(6));
  }

  /** The bridge is removed: its key stays in the ring. */
  method RemoveHeldBridge(h: Hmacs, hmac: Fingerprint -> Digest) returns (splitter: FilteredBridgeSplitter)
    ensures splitter.Valid() && !splitter.Agrees()
  {
    hide PassesAll, EntryOk, RingAgrees, Apart, WellStored;
    splitter := HoldOneBridge(h, hmac);
    PassesItsVersion(h, 4);
    assert {ByIPv(4)} in splitter.filterRings;
    splitter.Remove(PlainBridge(4));
  }
}
