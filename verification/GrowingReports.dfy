/** What getBlockedBridgesFromSql of bridgedb/Storage.py reports when rows come in the order in which
    they were measured: an exact count over the rows. */
module GrowingReports {
  import opened Storage
  import opened Measurements

  /** Dates never fall; rows of one day may come in any order. */
  ghost predicate Growing(vs: seq<Verdict>)
  {
    forall i, j :: 0 <= i < j < |vs| ==> vs[i].date <= vs[j].date
  }

  // ---------------------------------------------------------------- counting rows

  /** The number of blocked rows from a day on. */
  function BlockedSince(vs: seq<Verdict>, date: int): nat
  {
    if vs == [] then 0
    else
      var v := vs[|vs| - 1];
      BlockedSince(vs[..|vs| - 1], date) + if v.blocked && v.date >= date then 1 else 0
  }

  /** The number of reachable rows after a day. */
  function ReachableAfter(vs: seq<Verdict>, date: int): nat
  {
    if vs == [] then 0
    else
      var v := vs[|vs| - 1];
      ReachableAfter(vs[..|vs| - 1], date) + if !v.blocked && v.date > date then 1 else 0
  }

  /** By how many the blocked rows from a day on outnumber the reachable rows of later days. */
  function Excess(vs: seq<Verdict>, date: int): int { BlockedSince(vs, date) - ReachableAfter(vs, date) }

  lemma OneMoreRow(before: seq<Verdict>, v: Verdict, date: int)
    ensures BlockedSince(before + [v], date) ==
      BlockedSince(before, date) + if v.blocked && v.date >= date then 1 else 0
    ensures ReachableAfter(before + [v], date) ==
      ReachableAfter(before, date) + if !v.blocked && v.date > date then 1 else 0
    ensures Settled(before + [v]) == Settle(Settled(before), v)
  {
    var vs := before + [v];
    assert vs[..|vs| - 1] == before && vs[|vs| - 1] == v;
  }

  /** All rows are of this day or earlier ones. */
  ghost predicate Until(vs: seq<Verdict>, date: int) { forall w :: w in vs ==> w.date <= date }

  lemma {:induction false} NothingLater(vs: seq<Verdict>, date: int)
    requires Until(vs, date)
    ensures ReachableAfter(vs, date) == 0
    ensures forall d :: d > date ==> BlockedSince(vs, d) == 0
    ensures forall d :: d >= date ==> ReachableAfter(vs, d) == 0
    decreases |vs|
  {
    if vs != [] {
      assert forall w :: w in vs[..|vs| - 1] ==> w in vs;
      NothingLater(vs[..|vs| - 1], date);
      assert vs[|vs| - 1] in vs;
    }
  }

  /** The number of kept dates from a day on. */
  function Since(dates: seq<int>, date: int): (n: nat)
    ensures n <= |dates|
  {
    if dates == [] then 0 else Since(dates[1..], date) + if dates[0] >= date then 1 else 0
  }

  lemma {:induction false} SinceConcat(p: seq<int>, q: seq<int>, date: int)
    ensures Since(p + q, date) == Since(p, date) + Since(q, date)
  {
    if p == [] {
      assert p + q == q;
    } else {
      SinceConcat(p[1..], q, date);
      assert (p + q)[1..] == p[1..] + q;
    }
  }

  lemma SinceOne(date: int, d: int)
    ensures Since([date], d) == if date >= d then 1 else 0
  {
    assert [date][1..] == [];
  }

  lemma SinceRemoved(dates: seq<int>, i: nat, date: int)
    requires i < |dates| && dates[i] < date
    ensures Since(RemoveAt(dates, i), date) == Since(dates, date)
  {
    assert dates == dates[..i] + ([dates[i]] + dates[i + 1..]);
    SinceConcat(dates[..i], [dates[i]] + dates[i + 1..], date);
    SinceConcat([dates[i]], dates[i + 1..], date);
    SinceConcat(dates[..i], dates[i + 1..], date);
    SinceOne(dates[i], date);
  }

  lemma {:induction false} SinceAll(dates: seq<int>, date: int)
    requires forall d :: d in dates ==> d >= date
    ensures Since(dates, date) == |dates|
  {
    if dates != [] {
      assert dates[0] in dates && forall d :: d in dates[1..] ==> d in dates;
      SinceAll(dates[1..], date);
    }
  }

  // ---------------------------------------------------------------- the walk

  /** The number of kept blocked rows is the largest excess of all days (0 when none is positive),
      and the blocked rows of the latest day are all kept. */
  ghost predicate Counted(vs: seq<Verdict>, kept: seq<int>)
  {
    && (forall d :: Excess(vs, d) <= |kept|)
    && (kept != [] ==> exists d :: Excess(vs, d) >= |kept|)
    && (forall d :: Until(vs, d) ==> Since(kept, d) == BlockedSince(vs, d))
  }

  /** How a row that is not older than anything kept settles. */
  lemma SettleGrowing(k: Kept, v: Verdict)
    requires forall d :: d in k.blocked || d in k.reachable ==> d <= v.date
    ensures
      var k' := Settle(k, v);
      var i := FirstOther(k.blocked, v.date);
      && (v.blocked ==> k'.blocked == k.blocked + [v.date])
      && (!v.blocked && i == |k.blocked| ==> k'.blocked == k.blocked)
      && (!v.blocked && i < |k.blocked| ==> k.blocked[i] < v.date && k'.blocked == RemoveAt(k.blocked, i))
  {
    var opposite := Opposite(k, v.blocked);
    var i := FirstOther(opposite, v.date);
    if i < |opposite| {
      assert opposite[i] in opposite;
    }
  }

  lemma BlockedRowCounted(before: seq<Verdict>, v: Verdict, kept: seq<int>)
    requires Counted(before, kept) && Until(before, v.date) && v.blocked
    ensures Counted(before + [v], kept + [v.date])
  {
    hide BlockedSince, ReachableAfter, Since, Until;
    var vs := before + [v];
    forall d
      ensures Excess(vs, d) == Excess(before, d) + if d <= v.date then 1 else 0
      ensures Since(kept + [v.date], d) == Since(kept, d) + if d <= v.date then 1 else 0
    {
      OneMoreRow(before, v, d);
      SinceConcat(kept, [v.date], d);
      SinceOne(v.date, d);
    }
    NothingLater(before, v.date);
    forall d
      ensures Excess(vs, d) <= |kept| + 1
      ensures Excess(before, d) > 0 ==> d <= v.date
    {
    }
    if kept == [] {
      assert Excess(vs, v.date) >= 1;
    } else {
      var d :| Excess(before, d) >= |kept|;
      assert Excess(vs, d) >= |kept| + 1;
    }
    forall d | Until(vs, d)
      ensures Since(kept + [v.date], d) == BlockedSince(vs, d)
    {
      UntilLonger(before, v, d);
      OneMoreRow(before, v, d);
    }
  }

  lemma UntilLonger(before: seq<Verdict>, v: Verdict, d: int)
    ensures Until(before + [v], d) <==> Until(before, d) && v.date <= d
  {
    assert forall w :: w in before + [v] <==> w in before || w == v;
  }

  lemma ReachableRowCounted(before: seq<Verdict>, v: Verdict, kept: seq<int>, kept': seq<int>)
    requires Counted(before, kept) && Until(before, v.date) && !v.blocked
    requires forall d :: d in kept ==> d <= v.date
    requires
      var i := FirstOther(kept, v.date);
      if i == |kept| then kept' == kept else kept[i] < v.date && kept' == RemoveAt(kept, i)
    ensures Counted(before + [v], kept')
  {
    hide BlockedSince, ReachableAfter, Since, Until;
    var vs, i := before + [v], FirstOther(kept, v.date);
    forall d
      ensures Excess(vs, d) == Excess(before, d) - if d < v.date then 1 else 0
      ensures BlockedSince(vs, d) == BlockedSince(before, d)
    {
      OneMoreRow(before, v, d);
    }
    NothingLater(before, v.date);
    forall d | d >= v.date
      ensures Since(kept', d) == Since(kept, d) == BlockedSince(before, d)
    {
      UntilLater(before, v.date, d);
      if i < |kept| {
        SinceRemoved(kept, i, d);
      }
    }
    forall d
      ensures Excess(vs, d) <= |kept'|
    {
      if d >= v.date {
        assert Excess(vs, d) == BlockedSince(before, d) == Since(kept', d);
      }
    }
    if i == |kept| {
      SinceAll(kept, v.date);
      assert Excess(vs, v.date) == |kept|;
    } else {
      var d :| Excess(before, d) >= |kept|;
      assert Excess(vs, d) >= |kept'|;
    }
    forall d | Until(vs, d)
      ensures Since(kept', d) == BlockedSince(vs, d)
    {
      UntilLonger(before, v, d);
    }
  }

  lemma UntilLater(vs: seq<Verdict>, date: int, d: int)
    requires Until(vs, date) && d >= date
    ensures Until(vs, d)
  {
  }

  lemma GrowingPrefix(vs: seq<Verdict>)
    requires Growing(vs) && vs != []
    ensures
      var before, v := vs[..|vs| - 1], vs[|vs| - 1];
      Growing(before) && Until(before, v.date) && before + [v] == vs
  {
    var before, v := vs[..|vs| - 1], vs[|vs| - 1];
    forall w | w in before
      ensures w.date <= v.date
    {
      var i :| 0 <= i < |before| && before[i] == w;
      assert vs[i] == w;
    }
  }

  lemma KeptUntil(vs: seq<Verdict>, date: int)
    requires Until(vs, date)
    ensures forall d :: d in Settled(vs).blocked || d in Settled(vs).reachable ==> d <= date
  {
    KeptIsTraceable(vs);
    forall d | d in Settled(vs).blocked
      ensures d <= date
    {
      assert Verdict(true, d) in vs;
    }
    forall d | d in Settled(vs).reachable
      ensures d <= date
    {
      assert Verdict(false, d) in vs;
    }
  }

  /** With growing dates the number of kept blocked rows is the largest excess. */
  lemma {:induction false} KeptIsLargestExcess(vs: seq<Verdict>)
    requires Growing(vs)
    ensures Counted(vs, Settled(vs).blocked)
    decreases |vs|
  {
    hide Growing, Counted, Until, Settled, Settle;
    if vs == [] {
      NothingIsCounted();
    } else {
      var before, v := vs[..|vs| - 1], vs[|vs| - 1];
      GrowingPrefix(vs);
      KeptIsLargestExcess(before);
      var k := Settled(before);
      KeptUntil(before, v.date);
      SettleGrowing(k, v);
      OneMoreRow(before, v, 0);
      if v.blocked {
        BlockedRowCounted(before, v, k.blocked);
      } else {
        ReachableRowCounted(before, v, k.blocked, Settle(k, v).blocked);
      }
    }
  }

  lemma NothingIsCounted()
    ensures Counted([], Settled([]).blocked)
  {
  }

  // ---------------------------------------------------------------- the report

  /** With growing dates an endpoint is reported if and only if, from some day on, its blocked rows
      outnumber the reachable rows of later days. */
  lemma ReportedIffExcess(rows: seq<Row>, f: Fingerprint, e: Endpoint)
    requires Growing(About(rows, f, e))
    ensures Reported(rows, f, e) <==> exists d :: Excess(About(rows, f, e), d) > 0
  {
    hide About, Reported, Excess;
    ReportedIffKept(rows, f, e);
    var vs := About(rows, f, e);
    KeptIsLargestExcess(vs);
    var kept := Settled(vs).blocked;
    if kept != [] {
      var d :| Excess(vs, d) >= |kept|;
      assert Excess(vs, d) > 0;
    }
  }

  /** Growing rows tell the truth by their latest day: the endpoint is still blocked when a row of
      that day says so. */
  lemma StillBlockedByLatest(vs: seq<Verdict>)
    requires Growing(vs) && vs != []
    ensures StillBlocked(vs) <==> Verdict(true, vs[|vs| - 1].date) in vs
  {
    var last := vs[|vs| - 1];
    GrowingPrefix(vs);
    assert forall w :: w in vs <==> w in vs[..|vs| - 1] || w == last;
    assert last in vs;
    if Verdict(true, last.date) in vs {
      assert Undisputed(vs, last.date);
      assert Verdict(true, last.date).blocked;
    }
    if StillBlocked(vs) {
      var b :| b in vs && b.blocked && Undisputed(vs, b.date);
      if !last.blocked {
        assert b == Verdict(true, last.date);
      }
    }
  }

  /** When dates only grow the returned report is right about an endpoint if and only if a row of its
      latest day is blocked, or on no day the blocked rows from it on outnumber the reachable rows
      after it. */
  lemma GrowingReportIsRightIff(rows: seq<Row>, f: Fingerprint, e: Endpoint)
    requires Growing(About(rows, f, e))
    ensures
      var vs := About(rows, f, e);
      (Reported(rows, f, e) <==> StillBlocked(vs)) <==>
        (vs != [] && Verdict(true, vs[|vs| - 1].date) in vs) || (forall d :: Excess(vs, d) <= 0)
  {
    hide About, Reported, Excess;
    var vs := About(rows, f, e);
    ReportedIffExcess(rows, f, e);
    if vs == [] {
      ReportedIffKept(rows, f, e);
      assert !StillBlocked(vs);
    } else {
      StillBlockedByLatest(vs);
      if StillBlocked(vs) {
        StillBlockedIsReported(rows, f, e);
      }
    }
  }

  lemma StillBlockedIsReported(rows: seq<Row>, f: Fingerprint, e: Endpoint)
    requires StillBlocked(About(rows, f, e))
    ensures Reported(rows, f, e)
  {
    var vs := About(rows, f, e);
    var b :| b in vs && b.blocked && Undisputed(vs, b.date);
    UnbeatenIsKept(vs, b);
    ReportedIffKept(rows, f, e);
  }
}
