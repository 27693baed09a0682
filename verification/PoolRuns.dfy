/** Where bridges end up over runs of insertions into the pools (BridgeSplitter of
    bridgedb/bridgerings.py), told by what they ask for. */
module PoolRuns {
  import opened Common
  import opened Storage
  import opened BridgeData
  import opened Residues
  import opened BridgeSplitter

  /** A fingerprint is in one pool and in no other, or in none. */
  ghost predicate Exactly(p: Pools, f: Fingerprint, home: Option<string>)
  {
    forall r :: InRing(p, r, f) <==> home == Some(r)
  }

  /** Where the database last put a bridge, if that still is a pool; otherwise the pool of its hash. A pool
      named "any" cannot be asked for, nor does the database send anyone there. */
  function KnownOrHash(p: Pools, placement: Fingerprint -> nat, f: Fingerprint): string
    requires |p.rings| == |p.shares| && Sum(p.shares) > 0
  {
    if f in p.recorded && p.recorded[f] in p.rings && p.recorded[f] != "any" then p.recorded[f]
    else Chosen(p, placement, f)
  }

  // ---------------------------------------------------------------- one insertion

  /** A running bridge that asks for "none" is in no pool afterwards, wherever it was. */
  lemma AsksForNone(p: Pools, placement: Fingerprint -> nat, b: Bridge)
    requires WellFormed(p) && OneRing(p) && "none" !in p.rings && b.running && b.distributionRequest == "none"
    ensures Exactly(Insert(p, placement, b), b.fingerprint, None)
  {
    hide Insert, Chosen;
    HeldAreRings(p);
    forall r
      ensures !InRing(Insert(p, placement, b), r, b.fingerprint)
    {
      MembersAfterInsert(p, placement, b, r, b.fingerprint);
    }
  }

  /** A running bridge that asks for a pool by name is in that pool only. */
  lemma AsksByName(p: Pools, placement: Fingerprint -> nat, b: Bridge)
    requires WellFormed(p) && OneRing(p) && "none" !in p.rings && b.running
    requires b.distributionRequest in p.rings && b.distributionRequest !in ["", "any"]
    ensures
      var q := Insert(p, placement, b);
      && Exactly(q, b.fingerprint, Some(b.distributionRequest))
      && b.fingerprint in q.recorded && q.recorded[b.fingerprint] == b.distributionRequest
  {
    hide Chosen;
    HeldAreRings(p);
    forall r
      ensures InRing(Insert(p, placement, b), r, b.fingerprint) <==> r == b.distributionRequest
    {
      MembersAfterInsert(p, placement, b, r, b.fingerprint);
    }
  }

  /** Any other request, such as "any", puts a bridge that does not stray into the pool of its hash only. */
  lemma AsksForAnything(p: Pools, placement: Fingerprint -> nat, b: Bridge)
    requires WellFormed(p) && OneRing(p) && "none" !in p.rings && b.running && !Strays(p, placement, b)
    requires b.distributionRequest !in ["", "none"]
    requires b.distributionRequest in p.rings ==> b.distributionRequest == "any"
    ensures
      var q := Insert(p, placement, b);
      && Exactly(q, b.fingerprint, Some(Chosen(p, placement, b.fingerprint)))
      && b.fingerprint in q.recorded && q.recorded[b.fingerprint] == Chosen(p, placement, b.fingerprint)
  {
    hide Chosen;
    HeldAreRings(p);
    forall r
      ensures InRing(Insert(p, placement, b), r, b.fingerprint) <==> r == Chosen(p, placement, b.fingerprint)
    {
      MembersAfterInsert(p, placement, b, r, b.fingerprint);
    }
  }

  /** A bridge that requests nothing goes where the database knows it to belong, or else where its hash
      says. */
  lemma AsksForNothing(p: Pools, placement: Fingerprint -> nat, b: Bridge)
    requires WellFormed(p) && OneRing(p) && "none" !in p.rings && b.running && !Strays(p, placement, b)
    requires b.distributionRequest == ""
    ensures
      var q, home := Insert(p, placement, b), KnownOrHash(p, placement, b.fingerprint);
      && Exactly(q, b.fingerprint, Some(home))
      && b.fingerprint in q.recorded && q.recorded[b.fingerprint] == home
  {
    hide Chosen;
    HeldAreRings(p);
    forall r
      ensures InRing(Insert(p, placement, b), r, b.fingerprint) <==> r == KnownOrHash(p, placement, b.fingerprint)
    {
      MembersAfterInsert(p, placement, b, r, b.fingerprint);
    }
  }

  /** Where one insertion puts its bridge. */
  function Home(p: Pools, placement: Fingerprint -> nat, f: Fingerprint, request: string): Option<string>
    requires |p.rings| == |p.shares| && Sum(p.shares) > 0
  {
    if request == "none" then None
    else if request == "" then Some(KnownOrHash(p, placement, f))
    else if request in p.rings && request != "any" then Some(request)
    else Some(Chosen(p, placement, f))
  }

  lemma GoesHome(p: Pools, placement: Fingerprint -> nat, b: Bridge)
    requires WellFormed(p) && OneRing(p) && "none" !in p.rings && b.running && !Strays(p, placement, b)
    ensures Exactly(Insert(p, placement, b), b.fingerprint, Home(p, placement, b.fingerprint, b.distributionRequest))
  {
    hide Exactly, Insert, Chosen, Strays, OneRing;
    if b.distributionRequest == "none" {
      AsksForNone(p, placement, b);
    } else if b.distributionRequest == "" {
      AsksForNothing(p, placement, b);
    } else if b.distributionRequest in p.rings && b.distributionRequest != "any" {
      AsksByName(p, placement, b);
    } else {
      AsksForAnything(p, placement, b);
    }
  }

  // ---------------------------------------------------------------- whole runs

  /** Insertions of others, and of bridges that do not run, move nobody else. */
  lemma OthersStay(p: Pools, placement: Fingerprint -> nat, b: Bridge, f: Fingerprint, home: Option<string>)
    requires WellFormed(p) && Exactly(p, f, home) && !(b.running && b.fingerprint == f)
    ensures Exactly(Insert(p, placement, b), f, home)
  {
    hide Insert, InRing;
    forall r
      ensures InRing(Insert(p, placement, b), r, f) <==> home == Some(r)
    {
      MembersAfterInsert(p, placement, b, r, f);
    }
  }

  lemma RunIsWellFormed(p: Pools, placement: Fingerprint -> nat, bridges: seq<Bridge>)
    requires WellFormed(p)
    ensures WellFormed(InsertAll(p, placement, bridges))
  {
  }

  /** A bridge is, after any run in which nobody strays, where its last insertion put it: nowhere if it
      asked for "none", in the pool that it named, in the pool that the database knew if it requested
      nothing, and otherwise in the pool of its hash. */
  lemma {:induction false} LastInsertionDecides(p: Pools, placement: Fingerprint -> nat, bridges: seq<Bridge>, i: nat)
    requires Empty(p) && "none" !in p.rings && NeverStrays(p, placement, bridges)
    requires i < |bridges| && bridges[i].running
    requires forall j :: i < j < |bridges| && bridges[j].running ==> bridges[j].fingerprint != bridges[i].fingerprint
    ensures
      var f, before := bridges[i].fingerprint, InsertAll(p, placement, bridges[..i]);
      Exactly(InsertAll(p, placement, bridges), f, Home(before, placement, f, bridges[i].distributionRequest))
    decreases |bridges|
  {
    hide Exactly, Insert, Chosen, Strays, OneRing, Home, NeverStrays, Sum;
    var n := |bridges| - 1;
    var before, f := bridges[..n], bridges[i].fingerprint;
    EarlierNeverStray(p, placement, bridges);
    RunIsWellFormed(p, placement, before);
    if i == n {
      RunsKeepOneRing(p, placement, before);
      GoesHome(InsertAll(p, placement, before), placement, bridges[n]);
    } else {
      assert before[..i] == bridges[..i];
      LastInsertionDecides(p, placement, before, i);
      OthersStay(InsertAll(p, placement, before), placement, bridges[n], f,
                 Home(InsertAll(p, placement, bridges[..i]), placement, f, bridges[i].distributionRequest));
    }
  }

  lemma EarlierNeverStray(p: Pools, placement: Fingerprint -> nat, bridges: seq<Bridge>)
    requires WellFormed(p) && bridges != [] && NeverStrays(p, placement, bridges)
    ensures NeverStrays(p, placement, bridges[..|bridges| - 1])
    ensures !Strays(InsertAll(p, placement, bridges[..|bridges| - 1]), placement, bridges[|bridges| - 1])
  {
    hide Strays;
    var before := bridges[..|bridges| - 1];
    forall i | 0 <= i < |before|
      ensures !Strays(InsertAll(p, placement, before[..i]), placement, before[i])
    {
      assert before[..i] == bridges[..i] && before[i] == bridges[i];
    }
  }

  /** Who never ran is in no pool. */
  lemma {:induction false} NeverRan(p: Pools, placement: Fingerprint -> nat, bridges: seq<Bridge>, f: Fingerprint)
    requires Empty(p) && forall i :: 0 <= i < |bridges| && bridges[i].running ==> bridges[i].fingerprint != f
    ensures Exactly(InsertAll(p, placement, bridges), f, None)
    decreases |bridges|
  {
    hide Insert, Chosen;
    if bridges != [] {
      var n := |bridges| - 1;
      NeverRan(p, placement, bridges[..n], f);
      RunIsWellFormed(p, placement, bridges[..n]);
      OthersStay(InsertAll(p, placement, bridges[..n]), placement, bridges[n], f, None);
    }
  }

  // ---------------------------------------------------------------- shares of bridges

  /** The hash spreads bridges over the pools in proportion to their shares: of any bridges with
      consecutive numbers, k times as many as the shares add up to, exactly k times its share are for
      each pool. */
  lemma PoolsGetTheirShares(p: Pools, placement: Fingerprint -> nat, i: nat, fs: seq<Fingerprint>, start: nat, k: nat)
    requires WellFormed(p) && i < |p.rings|
    requires forall j :: 0 <= j < |p.rings| && j != i ==> p.rings[j] != p.rings[i]
    requires |fs| == k * Sum(p.shares) && forall j :: 0 <= j < |fs| ==> placement(fs[j]) == start + j
    ensures
      var chosen := set j | 0 <= j < |fs| && Chosen(p, placement, fs[j]) == p.rings[i];
      |chosen| == k * p.shares[i]
  {
    var m, low := Sum(p.shares), Sum(p.shares[..i]);
    var chosen := set j | 0 <= j < |fs| && Chosen(p, placement, fs[j]) == p.rings[i];
    assert p.shares[..|p.shares|] == p.shares;
    SumMonotone(p.shares, i, |p.shares|);
    hide Sum, Pick, Starts;
    var hits := Hits(start, k * m, m, low, low + p.shares[i]);
    forall j | 0 <= j < |fs|
      ensures j in chosen <==> j in hits
    {
      ChosenByShare(p, placement, i, fs[j]);
    }
    assert chosen == hits;
    ResiduesAreEven(start, m, k, low, low + p.shares[i]);
  }

  lemma ChosenByShare(p: Pools, placement: Fingerprint -> nat, i: nat, f: Fingerprint)
    requires WellFormed(p) && i < |p.rings|
    requires forall j :: 0 <= j < |p.rings| && j != i ==> p.rings[j] != p.rings[i]
    ensures Chosen(p, placement, f) == p.rings[i] <==>
      Sum(p.shares[..i]) <= placement(f) % Sum(p.shares) < Sum(p.shares[..i]) + p.shares[i]
  {
    hide Pick, Starts;
    PickFindsShare(p.shares, placement(f) % Sum(p.shares));
  }
}
