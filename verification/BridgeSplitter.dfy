/** Assigning bridges to pools: BridgeSplitter and UnallocatedHolder of bridgedb/bridgerings.py
    with the distributor column of the database. */
module BridgeSplitter {
  import opened Common
  import opened Storage
  import opened BridgeData
  import opened Bisect

  // ---------------------------------------------------------------- shares

  function Sum(shares: seq<nat>): nat
  {
    if shares == [] then 0 else Sum(shares[..|shares| - 1]) + shares[|shares| - 1]
  }

  /** The running sums that addRing appends to pValues. */
  function Starts(shares: seq<nat>): (starts: seq<nat>)
    ensures |starts| == |shares|
  {
    if shares == [] then []
    else Starts(shares[..|shares| - 1]) + [Sum(shares[..|shares| - 1])]
  }

  lemma {:induction false} StartsAreSums(shares: seq<nat>)
    ensures forall i :: 0 <= i < |shares| ==> Starts(shares)[i] == Sum(shares[..i])
  {
    if shares != [] {
      var before := shares[..|shares| - 1];
      StartsAreSums(before);
      assert forall i :: 0 <= i < |before| ==> before[..i] == shares[..i];
    }
  }

  lemma {:induction false} SumMonotone(shares: seq<nat>, i: nat, j: nat)
    requires i <= j <= |shares|
    ensures Sum(shares[..i]) <= Sum(shares[..j])
    ensures i < j ==> Sum(shares[..i]) + shares[i] <= Sum(shares[..j])
    decreases j
  {
    if i < j {
      assert shares[..j][..j - 1] == shares[..j - 1];
      SumMonotone(shares, i, j - 1);
    }
  }

  lemma StartsAreSorted(shares: seq<nat>)
    ensures Sorted(Starts(shares))
  {
    StartsAreSums(shares);
    forall i, j | 0 <= i < j < |shares|
      ensures Starts(shares)[i] <= Starts(shares)[j]
    {
      SumMonotone(shares, i, j);
    }
  }

  /** The ring that bisection over the running sums finds for a residue. */
  function Pick(starts: seq<nat>, n: nat): int
    requires Sorted(starts)
  {
    BisectRight(starts, n) - 1
  }

  lemma SumStep(shares: seq<nat>, k: nat)
    requires k < |shares|
    ensures Sum(shares[..k + 1]) == Sum(shares[..k]) + shares[k]
    ensures Sum(shares[..0]) == 0
  {
    assert shares[..k + 1][..k] == shares[..k];
  }

  /** Bisection always lands on a valid ring, and on the one whose share covers the residue. */
  lemma PickFindsShare(shares: seq<nat>, n: nat)
    requires n < Sum(shares)
    ensures Sorted(Starts(shares))
    ensures 0 <= Pick(Starts(shares), n) < |shares|
    ensures forall i :: 0 <= i < |shares| ==>
      (Pick(Starts(shares), n) == i <==>
       Sum(shares[..i]) <= n < Sum(shares[..i]) + shares[i])
  {
    hide Starts, BisectRight;
    StartsAreSorted(shares);
    StartsAreSums(shares);
    var starts := Starts(shares);
    var k := Pick(starts, n);
    assert shares[..|shares|] == shares;
    assert |shares| > 0;
    SumStep(shares, 0);
    assert starts[0] == 0;
    hide Sum;
    SumStep(shares, k);
    forall i | 0 <= i < |shares| && i != k
      ensures !(Sum(shares[..i]) <= n < Sum(shares[..i]) + shares[i])
    {
      if i < k {
        SumMonotone(shares, i, k);
      } else {
        assert starts[i] > n;
      }
    }
  }

  /** Ring i is chosen by exactly as many residues as its share, including none. */
  lemma SharesAreExact(shares: seq<nat>, i: nat)
    requires i < |shares|
    ensures Sorted(Starts(shares))
    ensures |set n: nat | n < Sum(shares) && Pick(Starts(shares), n) == i| == shares[i]
  {
    hide Sum, Starts, Pick;
    StartsAreSorted(shares);
    var chosen := set n: nat | n < Sum(shares) && Pick(Starts(shares), n) == i;
    var low := Sum(shares[..i]);
    SumMonotone(shares, i, |shares|);
    assert shares[..|shares|] == shares;
    forall n: nat
      ensures n in chosen <==> low <= n < low + shares[i]
    {
      if n < Sum(shares) {
        PickFindsShare(shares, n);
      }
    }
    assert chosen == Range(low, low + shares[i]);
  }

  ghost function Range(low: nat, high: nat): (range: set<nat>)
    requires low <= high
    ensures forall n: nat :: n in range <==> low <= n < high
    ensures |range| == high - low
    decreases high
  {
    if low == high then {} else Range(low, high - 1) + {high - 1}
  }

  // ---------------------------------------------------------------- specification

  /** The pools: ring names with their shares in the order they were added, who is held where, and
      what the database records. */
  datatype Pools = Pools(
    rings: seq<string>,
    shares: seq<nat>,
    held: map<string, set<Fingerprint>>,
    recorded: map<Fingerprint, string>)

  ghost predicate WellFormed(p: Pools)
  {
    |p.rings| == |p.shares| && Sum(p.shares) > 0 && p.held.Keys == set r | r in p.rings
  }

  /** The ring that a bridge's hash chooses; placement gives the first eight hex digits as a number. */
  function Chosen(p: Pools, placement: Fingerprint -> nat, f: Fingerprint): (ring: string)
    requires |p.rings| == |p.shares| && Sum(p.shares) > 0
    ensures ring in p.rings
  {
    PickFindsShare(p.shares, placement(f) % Sum(p.shares));
    p.rings[Pick(Starts(p.shares), placement(f) % Sum(p.shares))]
  }

  /** The recorded distributor, if it is a ring. */
  function Original(p: Pools, f: Fingerprint): Option<string>
  {
    if f in p.recorded && p.recorded[f] in p.rings then Some(p.recorded[f]) else None
  }

  /** The requested distributor, or the recorded one when nothing is requested. */
  function Wanted(p: Pools, b: Bridge): Option<string>
  {
    if b.distributionRequest != "" then Some(b.distributionRequest)
    else Original(p, b.fingerprint)
  }

  /** Whether the bridge is taken out of the ring that is recorded for it. */
  predicate LeavesOriginal(p: Pools, b: Bridge)
  {
    var original, wanted := Original(p, b.fingerprint), Wanted(p, b);
    original.Some? && wanted.Some? && wanted != original &&
    (wanted.value in p.rings || wanted.value == "none")
  }

  /** Whether the hash has to choose a ring. */
  predicate FallsBack(p: Pools, b: Bridge)
  {
    var wanted := Wanted(p, b);
    wanted != Some("none") && (wanted.None? || wanted.value !in p.rings || wanted.value == "any")
  }

  function HeldAfterLeaving(p: Pools, b: Bridge): map<string, set<Fingerprint>>
    requires p.held.Keys == set r | r in p.rings
  {
    if LeavesOriginal(p, b) then
      var r := Original(p, b.fingerprint).value;
      p.held[r := p.held[r] - {b.fingerprint}]
    else p.held
  }

  /** The ring into which the bridge goes, unless it wants none. */
  function Destination(p: Pools, placement: Fingerprint -> nat, b: Bridge): (ring: string)
    requires |p.rings| == |p.shares| && Sum(p.shares) > 0 && Wanted(p, b) != Some("none")
    ensures ring in p.rings
  {
    if FallsBack(p, b) then Chosen(p, placement, b.fingerprint) else Wanted(p, b).value
  }

  /** insert. */
  function Insert(p: Pools, placement: Fingerprint -> nat, b: Bridge): Pools
    requires |p.rings| == |p.shares| && Sum(p.shares) > 0 && p.held.Keys == set r | r in p.rings
  {
    if !b.running then p
    else
      var held := HeldAfterLeaving(p, b);
      if Wanted(p, b) == Some("none") then p.(held := held)
      else
        var ring := Destination(p, placement, b);
        p.(held := held[ring := held[ring] + {b.fingerprint}],
           recorded := p.recorded[b.fingerprint := ring])
  }

  // ---------------------------------------------------------------- one ring per bridge

  predicate InRing(p: Pools, r: string, f: Fingerprint) { r in p.held && f in p.held[r] }

  /** Each fingerprint is in at most one ring, and that is the ring that the database records. */
  ghost predicate OneRing(p: Pools)
  {
    forall r, f :: InRing(p, r, f) ==> f in p.recorded && p.recorded[f] == r
  }

  /** A bridge strays when it is held in a named ring, falls back to its hash without leaving that
      ring, and the hash chooses another one. */
  ghost predicate Strays(p: Pools, placement: Fingerprint -> nat, b: Bridge)
    requires WellFormed(p)
  {
    b.running && FallsBack(p, b) && !LeavesOriginal(p, b) &&
    exists r :: InRing(p, r, b.fingerprint) && r != Chosen(p, placement, b.fingerprint)
  }

  /** Who is in which ring after an insertion. */
  lemma MembersAfterInsert(p: Pools, placement: Fingerprint -> nat, b: Bridge, r: string, g: Fingerprint)
    requires WellFormed(p)
    ensures WellFormed(Insert(p, placement, b))
    ensures InRing(Insert(p, placement, b), r, g) <==>
      if !b.running || g != b.fingerprint then InRing(p, r, g)
      else
        (InRing(p, r, g) && !(LeavesOriginal(p, b) && Original(p, g) == Some(r))) ||
        (Wanted(p, b) != Some("none") && r == Destination(p, placement, b))
  {
    hide Chosen;
    assert Insert(p, placement, b).held.Keys == p.held.Keys;
  }

  /** An insertion keeps one ring per bridge exactly when the bridge does not stray. */
  lemma InsertKeepsOneRingExactly(p: Pools, placement: Fingerprint -> nat, b: Bridge)
    requires WellFormed(p) && OneRing(p)
    ensures WellFormed(Insert(p, placement, b))
    ensures OneRing(Insert(p, placement, b)) <==> !Strays(p, placement, b)
  {
    var q, f := Insert(p, placement, b), b.fingerprint;
    forall r, g
      ensures InRing(q, r, g) <==>
        if !b.running || g != f then InRing(p, r, g)
        else
          (InRing(p, r, g) && !(LeavesOriginal(p, b) && Original(p, g) == Some(r))) ||
          (Wanted(p, b) != Some("none") && r == Destination(p, placement, b))
    {
      MembersAfterInsert(p, placement, b, r, g);
    }
    hide Chosen, InRing, HeldAfterLeaving;
    MembersAfterInsert(p, placement, b, "", f);
    assert forall r :: InRing(p, r, f) ==> Original(p, f) == Some(r) by {
      assert forall r :: InRing(p, r, f) ==> r in p.rings by { HeldAreRings(p); }
    }
    if b.running && Wanted(p, b) != Some("none") {
      var ring := Destination(p, placement, b);
      assert InRing(q, ring, f) && q.recorded[f] == ring;
      if Strays(p, placement, b) {
        var r :| InRing(p, r, f) && r != Chosen(p, placement, f);
        assert InRing(q, r, f);
      }
    }
  }

  lemma HeldAreRings(p: Pools)
    requires WellFormed(p)
    ensures forall r, f :: InRing(p, r, f) ==> r in p.rings
  {
  }

  /** Runs of insertions. */
  function InsertAll(p: Pools, placement: Fingerprint -> nat, bridges: seq<Bridge>): (q: Pools)
    requires |p.rings| == |p.shares| && Sum(p.shares) > 0 && p.held.Keys == set r | r in p.rings
    ensures q.rings == p.rings && q.shares == p.shares && q.held.Keys == p.held.Keys
  {
    if bridges == [] then p
    else Insert(InsertAll(p, placement, bridges[..|bridges| - 1]), placement, bridges[|bridges| - 1])
  }

  ghost predicate NeverStrays(p: Pools, placement: Fingerprint -> nat, bridges: seq<Bridge>)
    requires WellFormed(p)
  {
    forall i :: 0 <= i < |bridges| ==>
      !Strays(InsertAll(p, placement, bridges[..i]), placement, bridges[i])
  }

  /** Rings that nobody is in yet, with any database. */
  ghost predicate Empty(p: Pools)
  {
    WellFormed(p) && forall r :: r in p.held ==> p.held[r] == {}
  }

  lemma {:induction false} RunsKeepOneRing(p: Pools, placement: Fingerprint -> nat, bridges: seq<Bridge>)
    requires Empty(p) && NeverStrays(p, placement, bridges)
    ensures OneRing(InsertAll(p, placement, bridges))
    decreases |bridges|
  {
    if bridges != [] {
      var n := |bridges| - 1;
      var before := bridges[..n];
      forall i | 0 <= i < n
        ensures !Strays(InsertAll(p, placement, before[..i]), placement, before[i])
      {
        assert before[..i] == bridges[..i];
      }
      RunsKeepOneRing(p, placement, before);
      InsertKeepsOneRingExactly(InsertAll(p, placement, before), placement, bridges[n]);
    }
  }

  /** Whoever is held is held where the hash says. */
  ghost predicate HeldByHash(p: Pools, placement: Fingerprint -> nat)
    requires WellFormed(p)
  {
    forall r, f :: InRing(p, r, f) ==> r == Chosen(p, placement, f)
  }

  /** A bridge that asks for "any" neither strays from the ring of its hash nor ends elsewhere. */
  lemma DefaultStaysWithHash(p: Pools, placement: Fingerprint -> nat, b: Bridge)
    requires WellFormed(p) && HeldByHash(p, placement)
    requires "any" !in p.rings && b.distributionRequest == "any"
    ensures !Strays(p, placement, b)
    ensures WellFormed(Insert(p, placement, b)) && HeldByHash(Insert(p, placement, b), placement)
  {
    hide Chosen, InRing, HeldAfterLeaving;
    var q := Insert(p, placement, b);
    MembersAfterInsert(p, placement, b, "", "");
    forall r, f | InRing(q, r, f)
      ensures r == Chosen(q, placement, f)
    {
      MembersAfterInsert(p, placement, b, r, f);
      ChosenByRings(p, q, placement, f);
    }
  }

  /** Bridges that always ask for "any", which is the default, never stray, whatever the database
      says and however often they return. */
  lemma {:induction false} DefaultsNeverStray(p: Pools, placement: Fingerprint -> nat, bridges: seq<Bridge>)
    requires Empty(p) && "any" !in p.rings
    requires forall i :: 0 <= i < |bridges| ==> bridges[i].distributionRequest == "any"
    ensures NeverStrays(p, placement, bridges)
    ensures HeldByHash(InsertAll(p, placement, bridges), placement)
    decreases |bridges|
  {
    if bridges != [] {
      var n := |bridges| - 1;
      var before := bridges[..n];
      DefaultsNeverStray(p, placement, before);
      DefaultStaysWithHash(InsertAll(p, placement, before), placement, bridges[n]);
      hide Strays, HeldByHash, Insert;
      forall i | 0 <= i < |bridges|
        ensures !Strays(InsertAll(p, placement, bridges[..i]), placement, bridges[i])
      {
        if i < n {
          assert before[..i] == bridges[..i] && before[i] == bridges[i];
        }
      }
    }
  }

  lemma ChosenByRings(p: Pools, q: Pools, placement: Fingerprint -> nat, f: Fingerprint)
    requires p.rings == q.rings && p.shares == q.shares
    requires |p.rings| == |p.shares| && Sum(p.shares) > 0
    ensures Chosen(p, placement, f) == Chosen(q, placement, f)
  {
  }

  // ---------------------------------------------------------------- the classes

  /** UnallocatedHolder. The pool distributors answer the same three calls by fingerprint. */
  class Holder {
    var fingerprints: seq<Fingerprint>

    ghost predicate Valid()
      reads this
    {
      forall i, j :: 0 <= i < j < |fingerprints| ==> fingerprints[i] != fingerprints[j]
    }

    ghost function Members(): set<Fingerprint>
      reads this
    {
      set f | f in fingerprints
    }

    constructor ()
      ensures Valid() && Members() == {}
    {
      fingerprints := [];
    }

    method Remove(fingerprint: Fingerprint)
      requires Valid()
      modifies this
      ensures Valid() && Members() == old(Members()) - {fingerprint}
    {
      var i := 0;
      while i < |fingerprints| && fingerprints[i] != fingerprint
        invariant i <= |fingerprints|
        invariant fingerprint !in fingerprints[..i]
        invariant fingerprints == old(fingerprints)
      {
        i := i + 1;
      }
      if i == |fingerprints| {
        assert fingerprints[..i] == fingerprints;
        return;
      }
      assert fingerprints == fingerprints[..i] + [fingerprint] + fingerprints[i + 1..];
      fingerprints := fingerprints[..i] + fingerprints[i + 1..];
    }

    method Insert(fingerprint: Fingerprint)
      requires Valid()
      modifies this
      ensures Valid() && Members() == old(Members()) + {fingerprint}
    {
      if fingerprint !in fingerprints {
        fingerprints := fingerprints + [fingerprint];
      }
    }

    method Len() returns (n: nat)
      requires Valid()
      ensures n == |Members()|
    {
      n := |fingerprints|;
      DistinctLength(fingerprints);
    }

    method Clear()
      modifies this
      ensures Valid() && Members() == {}
    {
      fingerprints := [];
    }
  }

  lemma {:induction false} DistinctLength(s: seq<Fingerprint>)
    requires forall i, j :: 0 <= i < j < |s| ==> s[i] != s[j]
    ensures |set f | f in s| == |s|
  {
    if s != [] {
      var before, last := s[..|s| - 1], s[|s| - 1];
      DistinctLength(before);
      assert (set f | f in s) == (set f | f in before) + {last};
    }
  }

  class BridgeSplitter {
    const db: Database
    const placement: Fingerprint -> nat
    var rings: seq<string>
    var pValues: seq<nat>
    var totalP: nat
    var ringsByName: map<string, Holder>
    ghost var shares: seq<nat>

    ghost predicate Valid()
      reads this, ringsByName.Values
    {
      && |rings| == |shares| && pValues == Starts(shares) && totalP == Sum(shares)
      && ringsByName.Keys == (set r | r in rings)
      && (forall r :: r in ringsByName ==> ringsByName[r].Valid())
      && (forall r, q :: r in ringsByName && q in ringsByName && r != q ==>
            ringsByName[r] != ringsByName[q])
    }

    /** The state that the specification speaks about. */
    ghost function State(): Pools
      reads this, db, ringsByName.Values
    {
      Pools(rings, shares, map r | r in ringsByName :: ringsByName[r].Members(),
            map f | f in db.bridges :: db.bridges[f].distributor)
    }

    constructor (db: Database, placement: Fingerprint -> nat)
      ensures Valid() && rings == [] && ringsByName == map[]
      ensures this.db == db && this.placement == placement
    {
      this.db, this.placement := db, placement;
      rings, pValues, totalP, ringsByName, shares := [], [], 0, map[], [];
    }

    method AddRing(ring: Holder, ringname: string, p: nat)
      requires Valid() && ring.Valid() && ring !in ringsByName.Values
      modifies this
      ensures Valid()
      ensures rings == old(rings) + [ringname] && shares == old(shares) + [p]
      ensures ringsByName == old(ringsByName)[ringname := ring]
    {
      ringsByName := ringsByName[ringname := ring];
      pValues := pValues + [totalP];
      rings := rings + [ringname];
      totalP := totalP + p;
      shares := shares + [p];
      assert shares[..|shares| - 1] == old(shares);
      forall r | r in ringsByName
        ensures ringsByName[r].Valid()
        ensures r != ringname ==> ringsByName[r] != ring
      {
        if r != ringname {
          assert ringsByName[r] == old(ringsByName)[r];
          assert old(ringsByName)[r] in old(ringsByName).Values;
        }
      }
    }

    method TakeOut(r: string, f: Fingerprint)
      requires Valid() && r in ringsByName
      modifies ringsByName[r]
      ensures Valid()
      ensures State() == old(State()).(held := old(State()).held[r := old(State()).held[r] - {f}])
    {
      ringsByName[r].Remove(f);
      assert forall q :: q in ringsByName && q != r ==>
        ringsByName[q].Members() == old(ringsByName[q].Members());
    }

    method PutIn(r: string, f: Fingerprint)
      requires Valid() && r in ringsByName
      modifies ringsByName[r]
      ensures Valid()
      ensures State() == old(State()).(held := old(State()).held[r := old(State()).held[r] + {f}])
    {
      ringsByName[r].Insert(f);
      assert forall q :: q in ringsByName && q != r ==>
        ringsByName[q].Members() == old(ringsByName[q].Members());
    }

    method Record(r: string, f: Fingerprint, now: real)
      requires Valid() && r in rings && |f| == HEX_ID_LEN
      modifies db`bridges
      ensures Valid()
      ensures State() == old(State()).(recorded := old(State()).recorded[f := r])
    {
      var ringname := db.InsertBridgeAndGetRing(f, r, now, rings);
      assert ringname == r;
      assert State().held == old(State().held);
    }

    method ChooseByHash(f: Fingerprint) returns (ring: string)
      requires Valid() && totalP > 0
      ensures ring == Chosen(State(), placement, f)
    {
      StartsAreSorted(shares);
      var n := placement(f) % totalP;
      PickFindsShare(shares, n);
      var pos := BisectRight(pValues, n) - 1;
      ring := rings[pos];
    }

    /** The first half of insert: which ring is wanted, and out of a ring that no longer is. */
    method LeaveOriginal(bridge: Bridge) returns (wanted: Option<string>)
      requires Valid() && totalP > 0
      modifies ringsByName.Values
      ensures Valid()
      ensures wanted == Wanted(old(State()), bridge)
      ensures State() == old(State()).(held := HeldAfterLeaving(old(State()), bridge))
    {
      hide Starts, Sum, Sorted;
      ghost var before := State();
      var original := db.GetBridgeDistributor(bridge.fingerprint, rings);
      wanted := original;
      if bridge.distributionRequest != "" {
        wanted := Some(bridge.distributionRequest);
      }
      assert original == Original(before, bridge.fingerprint) && wanted == Wanted(before, bridge);
      if original.Some? && original != wanted && wanted.value in rings + ["none"] {
        TakeOut(original.value, bridge.fingerprint);
      }
    }

    /** The second half: the hash chooses if nothing else does; record the ring and go there. */
    method Place(bridge: Bridge, wanted: Option<string>, now: real, ghost before: Pools)
      requires Valid() && totalP > 0 && |bridge.fingerprint| == HEX_ID_LEN
      requires WellFormed(before) && bridge.running
      requires wanted == Wanted(before, bridge) && wanted != Some("none")
      requires State() == before.(held := HeldAfterLeaving(before, bridge))
      modifies db`bridges, ringsByName.Values
      ensures Valid()
      ensures State() == Insert(before, placement, bridge)
    {
      hide Starts, Sum, Chosen, HeldAfterLeaving, Sorted, Wanted;
      var f := bridge.fingerprint;
      var method_ := wanted;
      if method_.None? || method_.value !in rings || method_.value == "any" {
        var chosen := ChooseByHash(f);
        ChosenByRings(State(), before, placement, f);
        method_ := Some(chosen);
      }
      assert method_.value == Destination(before, placement, bridge);
      Record(method_.value, f, now);
      PutIn(method_.value, f);
    }

    /** Inserting a bridge moves the rings and the database as the specification says. */
    method InsertBridge(bridge: Bridge, now: real)
      requires Valid() && rings != [] && totalP > 0
      requires |bridge.fingerprint| == HEX_ID_LEN
      modifies db`bridges, ringsByName.Values
      ensures Valid()
      ensures State() == Insert(old(State()), placement, bridge)
    {
      hide Starts, Sum, Chosen, HeldAfterLeaving, Sorted, Wanted, Destination;
      if !bridge.running {
        return;
      }
      ghost var before := State();
      var wanted := LeaveOriginal(bridge);
      if wanted == Some("none") {
        return;
      }
      Place(bridge, wanted, now, before);
    }

    /** len(splitter), which adds up the rings: the number of placed fingerprints if and only if none
        is in two rings, and more otherwise. */
    method Len() returns (n: nat)
      requires Valid()
      ensures n >= |Placed(State(), ringsByName.Keys)|
      ensures n == |Placed(State(), ringsByName.Keys)| <==> NobodyTwice(State(), ringsByName.Keys)
      ensures OneRing(State()) ==> n == |Placed(State(), ringsByName.Keys)|
    {
      hide Placed, NobodyTwice, OneRing;
      n := 0;
      var todo := ringsByName.Keys;
      NobodyYet(State());
      assert ringsByName.Keys - todo == {};
      OneRingNobodyTwice(State(), ringsByName.Keys);
      while todo != {}
        invariant todo <= ringsByName.Keys
        invariant n >= |Placed(State(), ringsByName.Keys - todo)|
        invariant n == |Placed(State(), ringsByName.Keys - todo)| <==>
          NobodyTwice(State(), ringsByName.Keys - todo)
        decreases todo
      {
        var r :| r in todo;
        var m := ringsByName[r].Len();
        PlacedOneMore(State(), ringsByName.Keys - todo, r);
        assert ringsByName.Keys - (todo - {r}) == ringsByName.Keys - todo + {r};
        n := n + m;
        todo := todo - {r};
      }
      assert ringsByName.Keys - {} == ringsByName.Keys;
    }
  }

  /** The fingerprints that some of the named rings hold. */
  ghost function Placed(p: Pools, names: set<string>): set<Fingerprint>
  {
    set r, f | r in names && r in p.held && f in p.held[r] :: f
  }

  /** No fingerprint is in two of the named rings. */
  ghost predicate NobodyTwice(p: Pools, names: set<string>)
  {
    forall r, q, f :: r in names && q in names && InRing(p, r, f) && InRing(p, q, f) ==> r == q
  }

  lemma NobodyYet(p: Pools)
    ensures |Placed(p, {})| == 0 && NobodyTwice(p, {})
  {
    assert Placed(p, {}) == {};
  }

  lemma OneRingNobodyTwice(p: Pools, names: set<string>)
    ensures OneRing(p) ==> NobodyTwice(p, names)
  {
  }

  /** A further ring adds its own members, except those that are already placed. */
  lemma PlacedOneMore(p: Pools, names: set<string>, r: string)
    requires r in p.held && r !in names
    ensures
      var before, after := |Placed(p, names)| + |p.held[r]|, |Placed(p, names + {r})|;
      after <= before &&
      (NobodyTwice(p, names + {r}) <==> NobodyTwice(p, names) && after == before)
  {
    var before, added := Placed(p, names), p.held[r];
    assert Placed(p, names + {r}) == before + added;
    assert |before + added| == |before| + |added| - |before * added|;
    if f :| f in before * added {
      var q :| q in names && q in p.held && f in p.held[q];
      assert InRing(p, q, f) && InRing(p, r, f) && q != r;
    }
    if before * added == {} {
      forall q, f | q in names && InRing(p, q, f)
        ensures !InRing(p, r, f)
      {
        assert f in before && f !in before * added;
      }
    }
  }

  /** A run after which a bridge is in two rings: from empty rings it asks for a named one that its
      hash does not choose, and then for "any". */
  lemma AnyAfterNamedStrays(p: Pools, placement: Fingerprint -> nat, r: string, b: Bridge)
    requires Empty(p) && "any" !in p.rings && b.running
    requires r in p.rings && r !in ["", "none"] && r != Chosen(p, placement, b.fingerprint)
    ensures
      var run := [b.(distributionRequest := r), b.(distributionRequest := "any")];
      var chosen := Chosen(p, placement, b.fingerprint);
      var q := InsertAll(p, placement, run);
      InRing(q, r, b.fingerprint) && InRing(q, chosen, b.fingerprint) && !OneRing(q)
  {
    hide Chosen, InsertAll, Insert, OneRing;
    var b1, b2 := b.(distributionRequest := r), b.(distributionRequest := "any");
    InsertAllTwo(p, placement, b1, b2);
    var q := Insert(p, placement, b1);
    AsksForNamed(p, placement, r, b1);
    ChosenByRings(p, q, placement, b.fingerprint);
    AsksForAnyAfterNamed(q, placement, r, b2);
    TwoRingsAreNotOne(Insert(q, placement, b2), r, Chosen(p, placement, b.fingerprint), b.fingerprint);
  }

  lemma InsertAllTwo(p: Pools, placement: Fingerprint -> nat, b1: Bridge, b2: Bridge)
    requires WellFormed(p)
    ensures WellFormed(Insert(p, placement, b1))
    ensures InsertAll(p, placement, [b1, b2]) == Insert(Insert(p, placement, b1), placement, b2)
  {
    hide Insert;
    MembersAfterInsert(p, placement, b1, "", "");
    assert [b1, b2][..1] == [b1] && [b1][..0] == [];
    assert InsertAll(p, placement, [b1]) == Insert(InsertAll(p, placement, []), placement, b1);
  }

  lemma AsksForNamed(p: Pools, placement: Fingerprint -> nat, r: string, b: Bridge)
    requires WellFormed(p) && b.running && b.distributionRequest == r
    requires r in p.rings && r !in ["", "none", "any"]
    ensures
      var q := Insert(p, placement, b);
      && WellFormed(q) && q.rings == p.rings && q.shares == p.shares
      && InRing(q, r, b.fingerprint) && Original(q, b.fingerprint) == Some(r)
  {
    hide Chosen;
    MembersAfterInsert(p, placement, b, r, b.fingerprint);
  }

  lemma AsksForAnyAfterNamed(p: Pools, placement: Fingerprint -> nat, r: string, b: Bridge)
    requires WellFormed(p) && b.running && b.distributionRequest == "any" && "any" !in p.rings
    requires InRing(p, r, b.fingerprint) && Original(p, b.fingerprint) == Some(r)
    ensures
      var q := Insert(p, placement, b);
      InRing(q, r, b.fingerprint) && InRing(q, Chosen(p, placement, b.fingerprint), b.fingerprint)
  {
    hide Chosen, Insert;
    var chosen := Chosen(p, placement, b.fingerprint);
    MembersAfterInsert(p, placement, b, r, b.fingerprint);
    MembersAfterInsert(p, placement, b, chosen, b.fingerprint);
  }

  lemma TwoRingsAreNotOne(p: Pools, r: string, q: string, f: Fingerprint)
    requires InRing(p, r, f) && InRing(p, q, f) && r != q
    ensures !OneRing(p)
  {
  }
}
