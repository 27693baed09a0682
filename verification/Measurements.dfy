/** Reconciling "blocked" and "reachable" measurements: getBlockedBridgesFromSql of
    bridgedb/Storage.py. The result depends on the order of the rows; this module says how. */
module Measurements {
  import opened Common
  import opened Storage

  // ---------------------------------------------------------------- rows

  /** BridgeMeasurement.compact(). */
  datatype Endpoint = Endpoint(country: string, address: string, port: int)

  const BRIDGE_BLOCKED := 1

  /** A row of the table BridgeMeasurements; measured is the day that last_measured names, or
      None where it is not a date. */
  datatype Row = Row(fingerprint: Fingerprint, endpoint: Endpoint, measured: Option<int>,
                     verdict: int)
  {
    predicate Blocked() { verdict == BRIDGE_BLOCKED }

    /** Unreadable dates count as 1 January 1970. */
    function Date(): int { if measured.Some? then measured.value else 0 }

    predicate NewerThan(other: Row) { Date() > other.Date() }
  }

  /** An unreadable date is older than every day after 1 January 1970, and as old as that day. */
  lemma UnreadableIsOld(m: Row, other: Row)
    requires m.measured == None && other.measured.Some? && other.measured.value >= 0
    ensures !m.NewerThan(other)
    ensures other.NewerThan(m) <==> other.measured.value > 0
  {
  }

  type Table = map<Fingerprint, seq<Row>>

  function Rows(d: Table, f: Fingerprint): seq<Row> { if f in d then d[f] else [] }

  /** A dictionary without empty lists. */
  function Stored(d: Table, f: Fingerprint, rows: seq<Row>): Table
  {
    if rows == [] then d - {f} else d[f := rows]
  }

  function RemoveAt<T>(s: seq<T>, i: nat): seq<T>
    requires i < |s|
  {
    s[..i] + s[i + 1..]
  }

  lemma RemoveKeepsOthers<T>(s: seq<T>, i: nat, x: T)
    requires i < |s| && x in s && x != s[i]
    ensures x in RemoveAt(s, i)
  {
    assert s == s[..i] + [s[i]] + s[i + 1..];
  }

  lemma RemoveMiddle<T>(a: seq<T>, x: T, b: seq<T>)
    ensures RemoveAt(a + ([x] + b), |a|) == a + b
  {
  }

  // ---------------------------------------------------------------- the source's loops

  /** Whether a kept row is about the same endpoint but of another date. */
  predicate Differs(kept: Row, m: Row)
  {
    kept.endpoint == m.endpoint && kept.Date() != m.Date()
  }

  /** The first kept row that differs; the length when there is none. */
  function FirstDiffering(kept: seq<Row>, m: Row): (i: nat)
    ensures i <= |kept|
    ensures i < |kept| ==> Differs(kept[i], m)
    ensures forall j :: 0 <= j < i ==> !Differs(kept[j], m)
  {
    if kept == [] || Differs(kept[0], m) then 0 else 1 + FirstDiffering(kept[1..], m)
  }

  lemma {:induction false} FirstDifferingIs(kept: seq<Row>, m: Row, i: nat)
    requires i <= |kept| && (i < |kept| ==> Differs(kept[i], m))
    requires forall j :: 0 <= j < i ==> !Differs(kept[j], m)
    ensures FirstDiffering(kept, m) == i
  {
    if i > 0 {
      assert !Differs(kept[0], m);
      FirstDifferingIs(kept[1..], m, i - 1);
    }
  }

  /** _shouldSkip on the dictionary of the opposite verdict: newer rows win, and one older row
      is taken out. */
  method ShouldSkip(m1: Row, d: Table) returns (skip: bool, d': Table)
    ensures
      var kept := Rows(d, m1.fingerprint);
      var i := FirstDiffering(kept, m1);
      if i < |kept| && kept[i].NewerThan(m1) then skip && d' == d
      else !skip && d' == if i < |kept| then Stored(d, m1.fingerprint, RemoveAt(kept, i)) else d
  {
    d' := d;
    if m1.fingerprint !in d {
      return false, d';
    }
    var maybeConflicting := d[m1.fingerprint];
    for k := 0 to |maybeConflicting|
      invariant forall j :: 0 <= j < k ==> !Differs(maybeConflicting[j], m1)
      invariant d' == d
    {
      var m2 := maybeConflicting[k];
      if m1.endpoint != m2.endpoint {
        continue;
      }
      if m2.NewerThan(m1) {
        FirstDifferingIs(maybeConflicting, m1, k);
        return true, d';
      }
      if m1.NewerThan(m2) {
        FirstDifferingIs(maybeConflicting, m1, k);
        d' := d[m1.fingerprint := RemoveAt(maybeConflicting, k)];
        if |d'[m1.fingerprint]| == 0 {
          d' := d' - {m1.fingerprint};
          assert d' == d - {m1.fingerprint};
        }
        return false, d';
      }
    }
    FirstDifferingIs(maybeConflicting, m1, |maybeConflicting|);
    skip := false;
  }

  datatype State = State(blocked: Table, reachable: Table)

  /** What one row does to the two dictionaries. */
  function Step(s: State, m: Row): State
  {
    var f := m.fingerprint;
    var opposite := if m.Blocked() then s.reachable else s.blocked;
    var same := if m.Blocked() then s.blocked else s.reachable;
    var kept := Rows(opposite, f);
    var i := FirstDiffering(kept, m);
    if i < |kept| && kept[i].NewerThan(m) then s
    else
      var opposite' := if i < |kept| then Stored(opposite, f, RemoveAt(kept, i)) else opposite;
      var same' := same[f := Rows(same, f) + [m]];
      if m.Blocked() then State(same', opposite') else State(opposite', same')
  }

  function After(rows: seq<Row>): State
  {
    if rows == [] then State(map[], map[])
    else Step(After(rows[..|rows| - 1]), rows[|rows| - 1])
  }

  function Endpoints(rows: seq<Row>): seq<Endpoint>
  {
    seq(|rows|, i requires 0 <= i < |rows| => rows[i].endpoint)
  }

  /** The body of the loop: one row and the two dictionaries. */
  method TakeRow(m: Row, s: State) returns (s': State)
    ensures s' == Step(s, m)
  {
    hide FirstDiffering, RemoveAt;
    var blocked, reachable := s.blocked, s.reachable;
    var skip;
    if m.Blocked() {
      skip, reachable := ShouldSkip(m, reachable);
    } else {
      skip, blocked := ShouldSkip(m, blocked);
    }
    if skip {
      return s;
    }
    var d := if m.Blocked() then blocked else reachable;
    if m.fingerprint !in d {
      assert [] + [m] == [m];
      d := d[m.fingerprint := [m]];
    } else {
      // A row is never an element of a list of other rows: membership is by identity.
      d := d[m.fingerprint := d[m.fingerprint] + [m]];
    }
    s' := if m.Blocked() then State(d, reachable) else State(blocked, d);
  }

  method GetBlockedBridgesFromSql(rows: seq<Row>) returns (result: map<Fingerprint, seq<Endpoint>>)
    ensures result == Report(rows)
  {
    hide Step;
    var state := State(map[], map[]);
    for n := 0 to |rows|
      invariant state == After(rows[..n])
    {
      assert rows[..n + 1][..n] == rows[..n];
      state := TakeRow(rows[n], state);
    }
    assert rows[..|rows|] == rows;
    result := map f | f in state.blocked :: Endpoints(state.blocked[f]);
  }

  function Report(rows: seq<Row>): map<Fingerprint, seq<Endpoint>>
  {
    var blocked := After(rows).blocked;
    map f | f in blocked :: Endpoints(blocked[f])
  }

  predicate Reported(rows: seq<Row>, f: Fingerprint, e: Endpoint)
  {
    f in Report(rows) && e in Report(rows)[f]
  }

  // ---------------------------------------------------------------- one endpoint at a time

  /** A row of one endpoint: its verdict and its date. */
  datatype Verdict = Verdict(blocked: bool, date: int)

  /** The verdicts on one endpoint, in the order of the rows. */
  function About(rows: seq<Row>, f: Fingerprint, e: Endpoint): seq<Verdict>
  {
    if rows == [] then []
    else
      var n := |rows| - 1;
      var m := rows[n];
      About(rows[..n], f, e) +
      (if m.fingerprint == f && m.endpoint == e then [Verdict(m.Blocked(), m.Date())] else [])
  }

  /** The dates that are kept about one endpoint. */
  function Dates(kept: seq<Row>, e: Endpoint): seq<int>
  {
    if kept == [] then []
    else (if kept[0].endpoint == e then [kept[0].Date()] else []) + Dates(kept[1..], e)
  }

  datatype Kept = Kept(blocked: seq<int>, reachable: seq<int>)

  function FirstOther(dates: seq<int>, date: int): (i: nat)
    ensures i <= |dates|
    ensures i < |dates| ==> dates[i] != date
    ensures forall j :: 0 <= j < i ==> dates[j] == date
  {
    if dates == [] || dates[0] != date then 0 else 1 + FirstOther(dates[1..], date)
  }

  /** The reconciliation of one endpoint. */
  function Settle(k: Kept, v: Verdict): Kept
  {
    var opposite := if v.blocked then k.reachable else k.blocked;
    var same := if v.blocked then k.blocked else k.reachable;
    var i := FirstOther(opposite, v.date);
    if i < |opposite| && opposite[i] > v.date then k
    else
      var opposite' := if i < |opposite| then RemoveAt(opposite, i) else opposite;
      if v.blocked then Kept(same + [v.date], opposite') else Kept(opposite', same + [v.date])
  }

  function Settled(vs: seq<Verdict>): Kept
  {
    if vs == [] then Kept([], []) else Settle(Settled(vs[..|vs| - 1]), vs[|vs| - 1])
  }

  function KeptAbout(s: State, f: Fingerprint, e: Endpoint): Kept
  {
    Kept(Dates(Rows(s.blocked, f), e), Dates(Rows(s.reachable, f), e))
  }

  lemma {:induction false} DatesConcat(a: seq<Row>, b: seq<Row>, e: Endpoint)
    ensures Dates(a + b, e) == Dates(a, e) + Dates(b, e)
  {
    if a == [] {
      assert a + b == b;
    } else {
      DatesConcat(a[1..], b, e);
      assert (a + b)[1..] == a[1..] + b;
    }
  }

  lemma DatesAppend(kept: seq<Row>, m: Row, e: Endpoint)
    ensures Dates(kept + [m], e) == Dates(kept, e) + (if m.endpoint == e then [m.Date()] else [])
  {
    DatesConcat(kept, [m], e);
    assert [m][1..] == [];
  }

  lemma {:induction false} FirstOtherIs(dates: seq<int>, date: int, k: nat)
    requires k <= |dates| && (k < |dates| ==> dates[k] != date)
    requires forall j :: 0 <= j < k ==> dates[j] == date
    ensures FirstOther(dates, date) == k
  {
    if k > 0 {
      assert dates[0] == date;
      FirstOtherIs(dates[1..], date, k - 1);
    }
  }

  lemma {:induction false} DatesOfSame(kept: seq<Row>, m: Row)
    requires forall j :: 0 <= j < |kept| ==> !Differs(kept[j], m)
    ensures forall k :: 0 <= k < |Dates(kept, m.endpoint)| ==> Dates(kept, m.endpoint)[k] == m.Date()
  {
    if kept != [] {
      assert !Differs(kept[0], m);
      DatesOfSame(kept[1..], m);
    }
  }

  /** The row search and the date search meet the same measurement. */
  lemma SearchesAgree(kept: seq<Row>, m: Row)
    ensures
      var i, k := FirstDiffering(kept, m), FirstOther(Dates(kept, m.endpoint), m.Date());
      && (i < |kept| <==> k < |Dates(kept, m.endpoint)|)
      && (i < |kept| ==>
            Dates(kept, m.endpoint)[k] == kept[i].Date() &&
            Dates(RemoveAt(kept, i), m.endpoint) == RemoveAt(Dates(kept, m.endpoint), k))
  {
    hide Dates, RemoveAt, FirstOther, FirstDiffering;
    var e, i := m.endpoint, FirstDiffering(kept, m);
    var head := kept[..i];
    DatesOfSame(head, m);
    if i < |kept| {
      var x, tail := kept[i], kept[i + 1..];
      DatesOfOne(x);
      assert kept == head + ([x] + tail);
      DatesConcat(head, [x] + tail, e);
      DatesConcat([x], tail, e);
      DatesConcat(head, tail, e);
      RemoveMiddle(head, x, tail);
      RemoveMiddle(Dates(head, e), x.Date(), Dates(tail, e));
      FirstOtherIs(Dates(kept, e), m.Date(), |Dates(head, e)|);
    } else {
      assert head == kept;
      FirstOtherIs(Dates(kept, e), m.Date(), |Dates(kept, e)|);
    }
  }

  lemma DatesOfOne(x: Row)
    ensures Dates([x], x.endpoint) == [x.Date()]
  {
    assert [x][1..] == [];
  }

  /** Taking out a row about one endpoint leaves the dates of the others. */
  lemma RemovalIsLocal(kept: seq<Row>, i: nat, e: Endpoint)
    requires i < |kept| && kept[i].endpoint != e
    ensures Dates(RemoveAt(kept, i), e) == Dates(kept, e)
  {
    assert kept == kept[..i] + ([kept[i]] + kept[i + 1..]);
    assert [kept[i]][1..] == [];
    DatesConcat(kept[..i], [kept[i]] + kept[i + 1..], e);
    DatesConcat([kept[i]], kept[i + 1..], e);
    DatesConcat(kept[..i], kept[i + 1..], e);
  }

  /** A row settles its own endpoint and touches no other. */
  lemma StepSettles(s: State, m: Row, f: Fingerprint, e: Endpoint)
    ensures KeptAbout(Step(s, m), f, e) ==
      if m.fingerprint == f && m.endpoint == e
      then Settle(KeptAbout(s, f, e), Verdict(m.Blocked(), m.Date()))
      else KeptAbout(s, f, e)
  {
    hide Dates, RemoveAt, FirstDiffering, FirstOther;
    if m.fingerprint == f {
      var opposite := if m.Blocked() then s.reachable else s.blocked;
      var same := if m.Blocked() then s.blocked else s.reachable;
      var kept := Rows(opposite, f);
      var i := FirstDiffering(kept, m);
      DatesAppend(Rows(same, f), m, e);
      SearchesAgree(kept, m);
      assert Dates([], e) == [] by { DatesOfNothing(e); }
      if i < |kept| && !kept[i].NewerThan(m) {
        var opposite' := Stored(opposite, f, RemoveAt(kept, i));
        assert Rows(opposite', f) == RemoveAt(kept, i);
        if m.endpoint != e {
          RemovalIsLocal(kept, i, e);
        }
      }
    }
  }

  lemma DatesOfNothing(e: Endpoint)
    ensures Dates([], e) == []
  {
  }

  lemma {:induction false} RunsSettle(rows: seq<Row>, f: Fingerprint, e: Endpoint)
    ensures KeptAbout(After(rows), f, e) == Settled(About(rows, f, e))
    decreases |rows|
  {
    if rows != [] {
      var n := |rows| - 1;
      var before, m := rows[..n], rows[n];
      RunsSettle(before, f, e);
      StepSettles(After(before), m, f, e);
      var vs, v := About(before, f, e), Verdict(m.Blocked(), m.Date());
      assert (vs + [v])[..|vs|] == vs;
      assert vs + [] == vs;
    }
  }

  lemma {:induction false} DatesFound(kept: seq<Row>, e: Endpoint)
    ensures Dates(kept, e) != [] <==> e in Endpoints(kept)
    decreases |kept|
  {
    if kept != [] {
      DatesFound(kept[1..], e);
      assert Endpoints(kept) == [kept[0].endpoint] + Endpoints(kept[1..]);
    }
  }

  lemma ReportedIffKept(rows: seq<Row>, f: Fingerprint, e: Endpoint)
    ensures Reported(rows, f, e) <==> Settled(About(rows, f, e)).blocked != []
  {
    RunsSettle(rows, f, e);
    var kept := Rows(After(rows).blocked, f);
    DatesFound(kept, e);
    DatesOfNothing(e);
  }

  // ---------------------------------------------------------------- what should be reported

  /** Some blocked verdict is at least as new as every reachable one. */
  ghost predicate StillBlocked(vs: seq<Verdict>)
  {
    exists b :: b in vs && b.blocked && Undisputed(vs, b.date)
  }

  ghost predicate Undisputed(vs: seq<Verdict>, date: int)
  {
    forall r :: r in vs && !r.blocked ==> r.date <= date
  }

  /** Everything kept came from a row of the right verdict. */
  ghost predicate Traceable(vs: seq<Verdict>, k: Kept)
  {
    && (forall d :: d in k.blocked ==> Verdict(true, d) in vs)
    && (forall d :: d in k.reachable ==> Verdict(false, d) in vs)
  }

  lemma {:induction false} KeptIsTraceable(vs: seq<Verdict>)
    ensures Traceable(vs, Settled(vs))
    decreases |vs|
  {
    hide Traceable, Settle;
    if vs == [] {
      NothingIsTraceable();
    } else {
      var n := |vs| - 1;
      KeptIsTraceable(vs[..n]);
      SettleIsTraceable(vs[..n], Settled(vs[..n]), vs[n]);
      assert vs == vs[..n] + [vs[n]];
    }
  }

  lemma NothingIsTraceable()
    ensures Traceable([], Kept([], []))
  {
  }

  lemma SettleIsTraceable(vs: seq<Verdict>, k: Kept, v: Verdict)
    requires Traceable(vs, k)
    ensures Traceable(vs + [v], Settle(k, v))
  {
    var longer := vs + [v];
    assert forall w :: w in longer <==> w in vs || w == v;
  }

  function Side(k: Kept, blocked: bool): seq<int> { if blocked then k.blocked else k.reachable }

  function Opposite(k: Kept, blocked: bool): seq<int> { if blocked then k.reachable else k.blocked }

  lemma SettleKeepsDate(k: Kept, v: Verdict, last: Verdict)
    requires v.date in Side(k, v.blocked)
    requires last.blocked != v.blocked ==> last.date <= v.date
    ensures v.date in Side(Settle(k, last), v.blocked)
  {
    if last.blocked != v.blocked {
      var list := Side(k, v.blocked);
      var i := FirstOther(list, last.date);
      if i < |list| && list[i] <= last.date {
        RemoveKeepsOthers(list, i, v.date);
      }
    }
  }

  lemma SettleTakesDate(k: Kept, v: Verdict)
    requires forall d :: d in Opposite(k, v.blocked) ==> d <= v.date
    ensures v.date in Side(Settle(k, v), v.blocked)
  {
    var opposite := Opposite(k, v.blocked);
    var i := FirstOther(opposite, v.date);
    if i < |opposite| {
      assert opposite[i] in opposite;
    }
  }

  /** The date of a verdict that no opposite verdict beats is never taken out. */
  lemma {:induction false} UnbeatenIsKept(vs: seq<Verdict>, v: Verdict)
    requires v in vs
    requires forall w :: w in vs && w.blocked != v.blocked ==> w.date <= v.date
    ensures v.date in Side(Settled(vs), v.blocked)
    decreases |vs|
  {
    var n := |vs| - 1;
    var before, last := vs[..n], vs[n];
    assert vs == before + [last];
    hide Settle;
    if v in before {
      UnbeatenIsKept(before, v);
      SettleKeepsDate(Settled(before), v, last);
    } else {
      KeptIsTraceable(before);
      forall d | d in Opposite(Settled(before), v.blocked)
        ensures d <= v.date
      {
        assert Verdict(!v.blocked, d) in before;
      }
      SettleTakesDate(Settled(before), v);
    }
  }

  /** Whether the kept lists tell the truth about the rows so far. */
  ghost predicate Truthful(vs: seq<Verdict>)
  {
    Settled(vs).blocked != [] <==> StillBlocked(vs)
  }

  /** Whether the first differing row of the opposite verdict is newer. */
  predicate Skips(k: Kept, v: Verdict)
  {
    var opposite := Opposite(k, v.blocked);
    var i := FirstOther(opposite, v.date);
    i < |opposite| && opposite[i] > v.date
  }

  /** The two branches that can lose the truth, seen from what is kept before a row: a reachable
      row that beats all kept blocked rows takes out only one of them, and an old blocked row is
      believed when the first differing reachable row is even older. */
  predicate Guard(k: Kept, v: Verdict)
  {
    if v.blocked then
      k.blocked != [] || (forall r :: r in k.reachable ==> r <= v.date) || Skips(k, v)
    else
      |k.blocked| <= 1 || exists b :: b in k.blocked && b >= v.date
  }

  lemma {:induction false} NewestExists(vs: seq<Verdict>, blocked: bool) returns (v: Verdict)
    requires exists w :: w in vs && w.blocked == blocked
    ensures v in vs && v.blocked == blocked
    ensures forall w :: w in vs && w.blocked == blocked ==> w.date <= v.date
    decreases |vs|
  {
    var n := |vs| - 1;
    var before, last := vs[..n], vs[n];
    assert forall w :: w in vs <==> w in before || w == last;
    if w :| w in before && w.blocked == blocked {
      v := NewestExists(before, blocked);
      if last.blocked == blocked && last.date > v.date {
        v := last;
      }
    } else {
      v := last;
    }
  }

  lemma StillBlockedAfter(before: seq<Verdict>, v: Verdict)
    ensures StillBlocked(before + [v]) <==>
      if v.blocked then StillBlocked(before) || Undisputed(before, v.date)
      else exists b :: b in before && b.blocked && Undisputed(before, b.date) && v.date <= b.date
  {
    var vs := before + [v];
    assert forall w :: w in vs <==> w in before || w == v;
    assert forall d :: Undisputed(vs, d) <==> Undisputed(before, d) && (v.blocked || v.date <= d);
  }

  /** While the endpoint is blocked, a reachable row leaves it so exactly when some kept blocked
      row is as new. */
  lemma KeptDecides(before: seq<Verdict>, v: Verdict)
    requires StillBlocked(before) && !v.blocked
    ensures StillBlocked(before + [v]) <==> exists d :: d in Settled(before).blocked && d >= v.date
  {
    var k := Settled(before);
    StillBlockedAfter(before, v);
    KeptIsTraceable(before);
    forall d | d in k.blocked && d >= v.date
      ensures exists w :: w in before && w.blocked && Undisputed(before, w.date) && v.date <= w.date
    {
      var b :| b in before && b.blocked && Undisputed(before, b.date);
      var w := if b.date >= d then b else Verdict(true, d);
      assert w in before && w.blocked && Undisputed(before, w.date) && v.date <= w.date;
    }
    forall b | b in before && b.blocked && Undisputed(before, b.date)
      ensures exists d :: d in k.blocked && d >= b.date
    {
      UnbeatenIsKept(before, b);
    }
  }

  lemma ReachableArrives(before: seq<Verdict>, v: Verdict)
    requires Truthful(before) && !v.blocked
    ensures (Settle(Settled(before), v).blocked != [] <==> StillBlocked(before + [v])) <==>
            Guard(Settled(before), v)
  {
    var k := Settled(before);
    StillBlockedAfter(before, v);
    if StillBlocked(before) {
      KeptDecides(before, v);
      var i := FirstOther(k.blocked, v.date);
      if d :| d in k.blocked && d >= v.date {
        if i < |k.blocked| && k.blocked[i] <= v.date {
          RemoveKeepsOthers(k.blocked, i, d);
        }
      } else {
        assert k.blocked[0] in k.blocked;
        assert i == 0;
      }
    }
  }

  /** If the endpoint is not blocked, the newest reachable row is newer than a row that it
      disputes, and it is kept. */
  lemma NewestIsKept(before: seq<Verdict>, date: int)
    requires !StillBlocked(before) && !Undisputed(before, date)
    ensures exists r :: r in Settled(before).reachable && r > date
  {
    var disputing :| disputing in before && !disputing.blocked && disputing.date > date;
    var newest := NewestExists(before, false);
    forall w | w in before && w.blocked
      ensures w.date <= newest.date
    {
      assert !Undisputed(before, w.date);
    }
    UnbeatenIsKept(before, newest);
  }

  lemma SettleOfBlocked(k: Kept, v: Verdict)
    requires v.blocked
    ensures Settle(k, v).blocked == [] <==> k.blocked == [] && Skips(k, v)
    ensures (forall r :: r in k.reachable ==> r <= v.date) ==> !Skips(k, v)
  {
    var i := FirstOther(k.reachable, v.date);
    if i < |k.reachable| {
      assert k.reachable[i] in k.reachable;
    }
  }

  lemma BlockedArrives(before: seq<Verdict>, v: Verdict)
    requires Truthful(before) && v.blocked
    ensures (Settle(Settled(before), v).blocked != [] <==> StillBlocked(before + [v])) <==>
            Guard(Settled(before), v)
  {
    var k := Settled(before);
    StillBlockedAfter(before, v);
    KeptIsTraceable(before);
    SettleOfBlocked(k, v);
    if Undisputed(before, v.date) {
      forall r | r in k.reachable
        ensures r <= v.date
      {
        assert Verdict(false, r) in before;
      }
    } else if k.blocked == [] {
      NewestIsKept(before, v.date);
    }
    hide Settle, Settled, FirstOther;
  }

  /** While the lists are truthful, a row keeps them so exactly when its guard holds. */
  lemma GuardIsExact(before: seq<Verdict>, v: Verdict)
    requires Truthful(before)
    ensures Truthful(before + [v]) <==> Guard(Settled(before), v)
  {
    var vs := before + [v];
    assert vs[..|vs| - 1] == before && vs[|vs| - 1] == v;
    assert Settled(vs) == Settle(Settled(before), v);
    hide Settle, Settled, Guard;
    if v.blocked {
      BlockedArrives(before, v);
    } else {
      ReachableArrives(before, v);
    }
  }

  /** The lists tell the truth after every row. */
  ghost predicate TruthfulThroughout(vs: seq<Verdict>)
    decreases |vs|
  {
    Truthful(vs) && (vs == [] || TruthfulThroughout(vs[..|vs| - 1]))
  }

  /** Every row meets its guard. */
  predicate Guarded(vs: seq<Verdict>)
    decreases |vs|
  {
    vs == [] ||
    (Guarded(vs[..|vs| - 1]) && Guard(Settled(vs[..|vs| - 1]), vs[|vs| - 1]))
  }

  lemma {:induction false} TruthfulThroughoutIffGuarded(vs: seq<Verdict>)
    ensures TruthfulThroughout(vs) <==> Guarded(vs)
    decreases |vs|
  {
    if vs != [] {
      var before, v := vs[..|vs| - 1], vs[|vs| - 1];
      TruthfulThroughoutIffGuarded(before);
      assert vs == before + [v];
      if Truthful(before) {
        GuardIsExact(before, v);
      }
    }
  }

  // ---------------------------------------------------------------- one report

  /** Once wrong, the report keeps an endpoint that is not blocked. A blocked row repairs it if no
      reachable row is newer, a reachable row if it clears the only row that is kept. */
  ghost predicate Repairs(before: seq<Verdict>, v: Verdict)
  {
    var k := Settled(before);
    if v.blocked then Undisputed(before, v.date) else |k.blocked| == 1 && k.blocked[0] < v.date
  }

  lemma UntruthfulIsStale(vs: seq<Verdict>)
    requires !Truthful(vs)
    ensures Settled(vs).blocked != [] && !StillBlocked(vs)
  {
    hide Settled;
    if b :| b in vs && b.blocked && Undisputed(vs, b.date) {
      UnbeatenIsKept(vs, b);
    }
  }

  lemma RepairIsExact(before: seq<Verdict>, v: Verdict)
    requires !Truthful(before)
    ensures Truthful(before + [v]) <==> Repairs(before, v)
  {
    var vs := before + [v];
    assert vs[..|vs| - 1] == before && vs[|vs| - 1] == v;
    assert Settled(vs) == Settle(Settled(before), v);
    hide Settled;
    UntruthfulIsStale(before);
    StillBlockedAfter(before, v);
    hide StillBlocked;
    if v.blocked {
      SettleOfBlocked(Settled(before), v);
    }
  }

  /** Whether the last row leaves the report right: it meets its guard, or it repairs. */
  ghost predicate EndsRight(vs: seq<Verdict>)
    decreases |vs|
  {
    vs == [] ||
    var before, v := vs[..|vs| - 1], vs[|vs| - 1];
    if EndsRight(before) then Guard(Settled(before), v) else Repairs(before, v)
  }

  lemma {:induction false} TruthfulIffEndsRight(vs: seq<Verdict>)
    ensures Truthful(vs) <==> EndsRight(vs)
    decreases |vs|
  {
    if vs != [] {
      var before, v := vs[..|vs| - 1], vs[|vs| - 1];
      TruthfulIffEndsRight(before);
      assert vs == before + [v];
      hide Truthful, Guard, Repairs, Settled;
      if Truthful(before) {
        GuardIsExact(before, v);
      } else {
        RepairIsExact(before, v);
      }
    }
  }

  // ---------------------------------------------------------------- two safe families

  /** The newest rows come first. */
  ghost predicate Decreasing(vs: seq<Verdict>)
  {
    forall i, j :: 0 <= i < j < |vs| ==> vs[i].date >= vs[j].date
  }

  ghost predicate OnePerVerdict(vs: seq<Verdict>)
  {
    |vs| <= 2 && (|vs| == 2 ==> vs[0].blocked != vs[1].blocked)
  }

  ghost predicate NoneOlder(k: Kept, date: int)
  {
    forall d :: d in k.blocked || d in k.reachable ==> d >= date
  }

  lemma DecreasingKeepsNewer(vs: seq<Verdict>)
    requires Decreasing(vs) && vs != []
    ensures
      var before, v := vs[..|vs| - 1], vs[|vs| - 1];
      Decreasing(before) && NoneOlder(Settled(before), v.date)
  {
    var before, v := vs[..|vs| - 1], vs[|vs| - 1];
    KeptIsTraceable(before);
    forall w | w in before
      ensures w.date >= v.date
    {
      var i :| 0 <= i < |before| && before[i] == w;
      assert vs[i] == w;
    }
  }

  lemma {:induction false} DecreasingIsGuarded(vs: seq<Verdict>)
    requires Decreasing(vs)
    ensures Guarded(vs)
    decreases |vs|
  {
    hide Decreasing, Guard, Settled, NoneOlder;
    if vs != [] {
      var before, v := vs[..|vs| - 1], vs[|vs| - 1];
      DecreasingKeepsNewer(vs);
      DecreasingIsGuarded(before);
      NewerIsGuarded(Settled(before), v);
    }
  }

  lemma NewerIsGuarded(k: Kept, v: Verdict)
    requires NoneOlder(k, v.date)
    ensures Guard(k, v)
  {
    if v.blocked {
      if r :| r in k.reachable && r > v.date {
        var i := FirstOther(k.reachable, v.date);
        assert i < |k.reachable|;
        assert k.reachable[i] in k.reachable;
      }
    } else if k.blocked != [] {
      var b := k.blocked[0];
      assert b in k.blocked;
      assert b >= v.date;
    }
  }

  lemma {:induction false} KeptAtMost(vs: seq<Verdict>)
    ensures |Settled(vs).blocked| + |Settled(vs).reachable| <= |vs|
    decreases |vs|
  {
    if vs != [] {
      KeptAtMost(vs[..|vs| - 1]);
    }
  }

  lemma {:induction false} OnePerVerdictIsGuarded(vs: seq<Verdict>)
    requires OnePerVerdict(vs)
    ensures Guarded(vs)
    decreases |vs|
  {
    if vs != [] {
      var before, v := vs[..|vs| - 1], vs[|vs| - 1];
      OnePerVerdictIsGuarded(before);
      KeptAtMost(before);
    }
  }

  // ---------------------------------------------------------------- the report

  /** Everything reported came from a blocked row. */
  lemma ReportedIsSound(rows: seq<Row>, f: Fingerprint, e: Endpoint)
    requires Reported(rows, f, e)
    ensures exists m :: m in rows && m.Blocked() && m.fingerprint == f && m.endpoint == e
  {
    ReportedIffKept(rows, f, e);
    var vs := About(rows, f, e);
    KeptIsTraceable(vs);
    var d := Settled(vs).blocked[0];
    assert Verdict(true, d) in vs;
    AboutComesFromRow(rows, f, e, Verdict(true, d));
  }

  lemma {:induction false} AboutComesFromRow(rows: seq<Row>, f: Fingerprint, e: Endpoint, v: Verdict)
    ensures v in About(rows, f, e) <==>
      exists m :: m in rows && m.fingerprint == f && m.endpoint == e &&
                  v == Verdict(m.Blocked(), m.Date())
    decreases |rows|
  {
    if rows != [] {
      var n := |rows| - 1;
      AboutComesFromRow(rows[..n], f, e, v);
      assert rows == rows[..n] + [rows[n]];
    }
  }

  /** A blocked row that no reachable row of its endpoint beats is reported, whatever the order
      of the rows and whatever else is among them. */
  lemma UnbeatenIsReported(rows: seq<Row>, m: Row)
    requires m in rows && m.Blocked()
    requires forall r | r in rows && !r.Blocked() && r.fingerprint == m.fingerprint && r.endpoint == m.endpoint ::
               !r.NewerThan(m)
    ensures Reported(rows, m.fingerprint, m.endpoint)
  {
    var f, e := m.fingerprint, m.endpoint;
    var vs, v := About(rows, f, e), Verdict(true, m.Date());
    AboutComesFromRow(rows, f, e, v);
    forall w | w in vs && w.blocked != v.blocked
      ensures w.date <= v.date
    {
      AboutComesFromRow(rows, f, e, w);
    }
    UnbeatenIsKept(vs, v);
    ReportedIffKept(rows, f, e);
  }

  /** Exactly the still blocked endpoints are reported when an endpoint's rows come newest first, or
      when it has at most one row of each verdict, in either order. */
  lemma ReportIsExact(rows: seq<Row>, f: Fingerprint, e: Endpoint)
    requires Decreasing(About(rows, f, e)) || OnePerVerdict(About(rows, f, e))
    ensures Reported(rows, f, e) <==> StillBlocked(About(rows, f, e))
  {
    var vs := About(rows, f, e);
    if Decreasing(vs) {
      DecreasingIsGuarded(vs);
    } else {
      OnePerVerdictIsGuarded(vs);
    }
    TruthfulThroughoutIffGuarded(vs);
    ReportedIffKept(rows, f, e);
  }

  /** The report is right after every prefix of the rows exactly when every row meets its guard. */
  lemma ReportIsRightThroughoutIffGuarded(rows: seq<Row>, f: Fingerprint, e: Endpoint)
    ensures
      (forall n :: 0 <= n <= |rows| ==>
         (Reported(rows[..n], f, e) <==> StillBlocked(About(rows[..n], f, e)))) <==>
      Guarded(About(rows, f, e))
  {
    forall n | 0 <= n <= |rows|
      ensures Truthful(About(rows[..n], f, e)) <==>
        (Reported(rows[..n], f, e) <==> StillBlocked(About(rows[..n], f, e)))
    {
      ReportedIffKept(rows[..n], f, e);
    }
    TruthfulPrefixes(rows, f, e);
    TruthfulThroughoutIffGuarded(About(rows, f, e));
  }

  /** The returned report is right about an endpoint exactly when its last row left it so: for rows
      in any order, told row by row from what was kept. */
  lemma ReportIsRightIff(rows: seq<Row>, f: Fingerprint, e: Endpoint)
    ensures (Reported(rows, f, e) <==> StillBlocked(About(rows, f, e))) <==>
            EndsRight(About(rows, f, e))
  {
    ReportedIffKept(rows, f, e);
    TruthfulIffEndsRight(About(rows, f, e));
  }

  lemma {:induction false} TruthfulPrefixes(rows: seq<Row>, f: Fingerprint, e: Endpoint)
    ensures
      (forall n :: 0 <= n <= |rows| ==> Truthful(About(rows[..n], f, e))) <==>
      TruthfulThroughout(About(rows, f, e))
    decreases |rows|
  {
    assert rows[..|rows|] == rows;
    if rows == [] {
      assert About(rows[..0], f, e) == [];
    } else {
      var n := |rows| - 1;
      var before := rows[..n];
      TruthfulPrefixes(before, f, e);
      assert forall m :: 0 <= m <= n ==> before[..m] == rows[..m];
      AboutLast(rows, f, e);
      hide About, Truthful;
      assert forall m :: 0 <= m <= |rows| ==> m <= n || rows[..m] == rows;
      assert before[..n] == before;
      assert rows[..n + 1] == rows;
    }
  }

  /** The last row adds one verdict or none. */
  lemma AboutLast(rows: seq<Row>, f: Fingerprint, e: Endpoint)
    requires rows != []
    ensures
      var before, vs := About(rows[..|rows| - 1], f, e), About(rows, f, e);
      vs == before || (vs != [] && vs[..|vs| - 1] == before)
  {
  }

  /** Two old blocked rows survive one newer reachable row: the endpoint stays reported. */
  lemma StaleRowIsReported(f: Fingerprint, e: Endpoint)
    ensures
      var rows := [Row(f, e, Some(1), 1), Row(f, e, Some(2), 1), Row(f, e, Some(3), 0)];
      Reported(rows, f, e) && !StillBlocked(About(rows, f, e))
  {
    var rows := [Row(f, e, Some(1), 1), Row(f, e, Some(2), 1), Row(f, e, Some(3), 0)];
    var vs := [Verdict(true, 1), Verdict(true, 2), Verdict(false, 3)];
    assert About(rows, f, e) == vs by { StaleVerdicts(f, e); }
    ReportedIffKept(rows, f, e);
    hide About, Settled, Reported;
    StaleVerdictSurvives();
    assert vs[2].date == 3 && vs[2] in vs;
  }

  lemma StaleVerdicts(f: Fingerprint, e: Endpoint)
    ensures About([Row(f, e, Some(1), 1), Row(f, e, Some(2), 1), Row(f, e, Some(3), 0)], f, e)
      == [Verdict(true, 1), Verdict(true, 2), Verdict(false, 3)]
  {
    var r1, r2, r3 := Row(f, e, Some(1), 1), Row(f, e, Some(2), 1), Row(f, e, Some(3), 0);
    assert [r1, r2, r3][..2] == [r1, r2] && [r1, r2][..1] == [r1] && [r1][..0] == [];
    assert About([r1], f, e) == [Verdict(true, 1)];
    assert About([r1, r2], f, e) == [Verdict(true, 1), Verdict(true, 2)];
  }

  lemma StaleVerdictSurvives()
    ensures Settled([Verdict(true, 1), Verdict(true, 2), Verdict(false, 3)]).blocked == [2]
  {
    var v1, v2, v3 := Verdict(true, 1), Verdict(true, 2), Verdict(false, 3);
    assert [v1, v2, v3][..2] == [v1, v2] && [v1, v2][..1] == [v1] && [v1][..0] == [];
    assert Settled([v1]) == Kept([1], []);
    assert Settled([v1, v2]) == Kept([1, 2], []);
  }

  /** An old blocked row is believed although a reachable row is newer: the first reachable row that
      it meets is even older. */
  lemma OldRowIsBelieved(f: Fingerprint, e: Endpoint)
    ensures
      var rows := [Row(f, e, Some(1), 0), Row(f, e, Some(3), 0), Row(f, e, Some(2), 1)];
      Reported(rows, f, e) && !StillBlocked(About(rows, f, e))
  {
    var rows := [Row(f, e, Some(1), 0), Row(f, e, Some(3), 0), Row(f, e, Some(2), 1)];
    var vs := [Verdict(false, 1), Verdict(false, 3), Verdict(true, 2)];
    assert About(rows, f, e) == vs by { OldVerdicts(f, e); }
    ReportedIffKept(rows, f, e);
    hide About, Settled, Reported;
    OldVerdictBelieved();
    assert vs[1].date == 3 && vs[1] in vs;
  }

  lemma OldVerdicts(f: Fingerprint, e: Endpoint)
    ensures About([Row(f, e, Some(1), 0), Row(f, e, Some(3), 0), Row(f, e, Some(2), 1)], f, e)
      == [Verdict(false, 1), Verdict(false, 3), Verdict(true, 2)]
  {
    var r1, r3, r2 := Row(f, e, Some(1), 0), Row(f, e, Some(3), 0), Row(f, e, Some(2), 1);
    assert [r1, r3, r2][..2] == [r1, r3] && [r1, r3][..1] == [r1] && [r1][..0] == [];
    assert About([r1], f, e) == [Verdict(false, 1)];
    assert About([r1, r3], f, e) == [Verdict(false, 1), Verdict(false, 3)];
  }

  lemma OldVerdictBelieved()
    ensures Settled([Verdict(false, 1), Verdict(false, 3), Verdict(true, 2)]).blocked == [2]
  {
    var v1, v3, v2 := Verdict(false, 1), Verdict(false, 3), Verdict(true, 2);
    assert [v1, v3, v2][..2] == [v1, v3] && [v1, v3][..1] == [v1] && [v1][..0] == [];
    assert Settled([v1]) == Kept([], [1]);
    assert Settled([v1, v3]) == Kept([], [1, 3]);
  }
}
