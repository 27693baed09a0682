/** Where the bases that parseAcceptLanguage adds end up (bridgedb/parse/headers.py): the result of the
    loop in closed form. */
module FallbackOrder {
  import opened Common
  import opened Text
  import opened Headers

  /** The added bases that stand behind a code of the client: those that it starts with, the latest
      first. */
  function Behind(code: string, added: seq<string>): seq<string>
  {
    if added == [] then []
    else
      var b := added[|added| - 1];
      (if StartsWith(code, b) then [b] else []) + Behind(code, added[..|added| - 1])
  }

  /** The added bases that a code does not start with, in order. */
  function Others(code: string, added: seq<string>): seq<string>
  {
    if added == [] then []
    else
      var b := added[|added| - 1];
      Others(code, added[..|added| - 1]) + if StartsWith(code, b) then [] else [b]
  }

  /** The client's codes, each followed by the added bases for which it is the first that starts with
      them, the latest first. */
  function Layout(codes: seq<string>, added: seq<string>): seq<string>
  {
    if codes == [] then []
    else [codes[0]] + Behind(codes[0], added) + Layout(codes[1..], Others(codes[0], added))
  }

  /** The missing bases in the order in which the loop meets them. */
  function Additions(codes: seq<string>, added: seq<string>, rest: seq<string>): seq<string>
    decreases |rest|
  {
    if rest == [] then added
    else if IsLocale(rest[0]) && Base(rest[0]) !in codes && Base(rest[0]) !in added then
      Additions(codes, added + [Base(rest[0])], rest[1..])
    else Additions(codes, added, rest[1..])
  }

  /** Each added base has a code that starts with it. */
  ghost predicate Anchored(codes: seq<string>, added: seq<string>)
  {
    forall b :: b in added ==> FirstStarting(codes, b) < |codes|
  }

  lemma OneMoreBehind(code: string, added: seq<string>, b: string)
    ensures Behind(code, added + [b]) == (if StartsWith(code, b) then [b] else []) + Behind(code, added)
    ensures Others(code, added + [b]) == Others(code, added) + if StartsWith(code, b) then [] else [b]
  {
    var longer := added + [b];
    assert longer[..|longer| - 1] == added && longer[|longer| - 1] == b;
  }

  lemma {:induction false} BehindOrOther(code: string, added: seq<string>)
    ensures forall x :: x in Behind(code, added) <==> x in added && StartsWith(code, x)
    ensures forall x :: x in Others(code, added) <==> x in added && !StartsWith(code, x)
    decreases |added|
  {
    if added != [] {
      var before, b := added[..|added| - 1], added[|added| - 1];
      assert added == before + [b];
      BehindOrOther(code, before);
    }
  }

  lemma FirstStartingOfTail(codes: seq<string>, b: string)
    requires codes != []
    ensures FirstStarting(codes, b) == if StartsWith(codes[0], b) then 0 else 1 + FirstStarting(codes[1..], b)
  {
  }

  lemma OthersAreAnchored(codes: seq<string>, added: seq<string>)
    requires Anchored(codes, added) && codes != []
    ensures Anchored(codes[1..], Others(codes[0], added))
  {
    BehindOrOther(codes[0], added);
    forall b | b in Others(codes[0], added)
      ensures FirstStarting(codes[1..], b) < |codes| - 1
    {
      FirstStartingOfTail(codes, b);
    }
  }

  lemma {:induction false} LayoutMembers(codes: seq<string>, added: seq<string>)
    requires Anchored(codes, added)
    ensures forall x :: x in Layout(codes, added) <==> x in codes || x in added
    decreases |codes|
  {
    if codes == [] {
      assert forall b :: b in added ==> FirstStarting(codes, b) < 0;
    } else {
      OthersAreAnchored(codes, added);
      LayoutMembers(codes[1..], Others(codes[0], added));
      BehindOrOther(codes[0], added);
      assert codes == [codes[0]] + codes[1..];
    }
  }

  lemma {:induction false} FirstStartingAfter(head: seq<string>, tail: seq<string>, b: string)
    requires forall x :: x in head ==> !StartsWith(x, b)
    ensures FirstStarting(head + tail, b) == |head| + FirstStarting(tail, b)
    decreases |head|
  {
    hide StartsWith;
    if head == [] {
      assert head + tail == tail;
    } else {
      assert head[0] in head;
      assert (head + tail)[0] == head[0] && (head + tail)[1..] == head[1..] + tail;
      FirstStartingAfter(head[1..], tail, b);
    }
  }

  /** Nothing that stands behind a code starts with what the code does not start with. */
  lemma BlockDoesNotStart(code: string, added: seq<string>, b: string)
    requires !StartsWith(code, b)
    ensures forall x :: x in [code] + Behind(code, added) ==> !StartsWith(x, b)
  {
    BehindOrOther(code, added);
    forall x | x in Behind(code, added)
      ensures !StartsWith(x, b)
    {
      StartsTransitive(code, x, b);
    }
  }

  /** The first code of the layout that starts with a base is the client's own. */
  lemma {:induction false} InsertIntoLayout(codes: seq<string>, added: seq<string>, b: string)
    requires FirstStarting(codes, b) < |codes|
    ensures
      var langs := Layout(codes, added);
      var k := FirstStarting(langs, b);
      k < |langs| && langs[k] == codes[FirstStarting(codes, b)] &&
      InsertAt(langs, k + 1, b) == Layout(codes, added + [b])
    decreases |codes|
  {
    hide StartsWith, Behind, Others, InsertAt, Layout;
    LayoutWithMore(codes, added, b);
    FirstStartingOfTail(codes, b);
    var code, langs := codes[0], Layout(codes, added);
    var head, tail := [code] + Behind(code, added), Layout(codes[1..], Others(code, added));
    if StartsWith(code, b) {
      assert FirstStarting(langs, b) == 0;
      InsertSecond(code, Behind(code, added), tail, b);
    } else {
      BlockDoesNotStart(code, added, b);
      FirstStartingAfter(head, tail, b);
      InsertIntoLayout(codes[1..], Others(code, added), b);
      InsertInTail(head, tail, FirstStarting(tail, b) + 1, b);
    }
  }

  lemma LayoutWithMore(codes: seq<string>, added: seq<string>, b: string)
    requires codes != []
    ensures
      var code, rest := codes[0], codes[1..];
      var behind, others, more := Behind(code, added), Others(code, added), Layout(codes, added + [b]);
      && Layout(codes, added) == [code] + behind + Layout(rest, others)
      && (StartsWith(code, b) ==> more == [code] + ([b] + behind) + Layout(rest, others))
      && (!StartsWith(code, b) ==> more == [code] + behind + Layout(rest, others + [b]))
  {
    hide StartsWith;
    OneMoreBehind(codes[0], added, b);
    assert Others(codes[0], added) + [] == Others(codes[0], added);
    assert [] + Behind(codes[0], added) == Behind(codes[0], added);
  }

  lemma InsertSecond(code: string, behind: seq<string>, tail: seq<string>, b: string)
    ensures InsertAt([code] + behind + tail, 1, b) == [code] + ([b] + behind) + tail
  {
  }

  lemma InsertInTail(head: seq<string>, tail: seq<string>, k: nat, b: string)
    requires k <= |tail|
    ensures InsertAt(head + tail, |head| + k, b) == head + InsertAt(tail, k, b)
  {
  }

  lemma {:induction false} AddAllIsLayout(codes: seq<string>, added: seq<string>, rest: seq<string>)
    requires Anchored(codes, added) && forall c :: c in rest ==> c in codes
    ensures forall c :: c in rest ==> c in Layout(codes, added)
    ensures Anchored(codes, Additions(codes, added, rest))
    ensures AddAll(Layout(codes, added), rest) == Layout(codes, Additions(codes, added, rest))
    decreases |rest|
  {
    hide Layout, InsertAt, Base, IsLocale, StartsWith;
    LayoutMembers(codes, added);
    if rest != [] {
      var langs, code := Layout(codes, added), rest[0];
      assert code in rest && rest == [code] + rest[1..];
      BaseStarts(codes, code);
      AddAllStep(langs, code, rest[1..]);
      if IsLocale(code) && Base(code) !in langs {
        InsertIntoLayout(codes, added, Base(code));
        AddAllIsLayout(codes, added + [Base(code)], rest[1..]);
      } else {
        AddAllIsLayout(codes, added, rest[1..]);
      }
    }
  }

  lemma BaseStarts(codes: seq<string>, code: string)
    requires code in codes
    ensures FirstStarting(codes, Base(code)) < |codes|
  {
    FallbackFits(codes, code);
  }

  /** The whole result in closed form: the client's codes in their order, and behind each the missing
      bases for which it is the first code that starts with them, the last one met first. */
  lemma FallbacksAreLaidOut(codes: seq<string>)
    ensures WithFallbacks(codes) == Layout(codes, Additions(codes, [], codes))
  {
    NothingAdded(codes);
    AddAllIsLayout(codes, [], codes);
  }

  lemma {:induction false} NothingAdded(codes: seq<string>)
    ensures Layout(codes, []) == codes
  {
    if codes != [] {
      NothingAdded(codes[1..]);
      assert codes == [codes[0]] + codes[1..];
    }
  }

  /** The last added base whose first code is number q. */
  function Latest(codes: seq<string>, added: seq<string>, q: nat): Option<string>
  {
    if added == [] then None
    else
      var b := added[|added| - 1];
      if FirstStarting(codes, b) == q then Some(b) else Latest(codes, added[..|added| - 1], q)
  }

  lemma {:induction false} LatestInTail(codes: seq<string>, added: seq<string>, q: nat)
    requires codes != []
    ensures Latest(codes, added, q + 1) == Latest(codes[1..], Others(codes[0], added), q)
    ensures Latest(codes, added, 0) ==
      if Behind(codes[0], added) == [] then None else Some(Behind(codes[0], added)[0])
    decreases |added|
  {
    if added != [] {
      var before, b := added[..|added| - 1], added[|added| - 1];
      assert added == before + [b];
      LatestInTail(codes, before, q);
      OneMoreBehind(codes[0], before, b);
      FirstStartingOfTail(codes, b);
      var others := Others(codes[0], before);
      assert (others + [b])[..|others|] == others && others + [] == others;
      assert [] + Behind(codes[0], before) == Behind(codes[0], before);
    }
  }

  /** In a layout the code behind the first starter of a base is the latest base with this starter. */
  lemma {:induction false} NextIsLatest(codes: seq<string>, added: seq<string>, b: string)
    requires Anchored(codes, added) && b in added
    ensures
      var langs := Layout(codes, added);
      var k := FirstStarting(langs, b);
      k + 1 < |langs| && Latest(codes, added, FirstStarting(codes, b)) == Some(langs[k + 1])
    decreases |codes|
  {
    hide StartsWith, Behind, Others, Latest;
    var code, langs := codes[0], Layout(codes, added);
    FirstStartingOfTail(codes, b);
    BehindOrOther(code, added);
    var head, tail := [code] + Behind(code, added), Layout(codes[1..], Others(code, added));
    assert langs == head + tail;
    if StartsWith(code, b) {
      LatestInTail(codes, added, 0);
      assert FirstStarting(langs, b) == 0;
      assert Behind(code, added) != [] && langs[1] == Behind(code, added)[0];
    } else {
      BlockDoesNotStart(code, added, b);
      FirstStartingAfter(head, tail, b);
      OthersAreAnchored(codes, added);
      NextIsLatest(codes[1..], Others(code, added), b);
      LatestInTail(codes, added, FirstStarting(codes[1..], b));
    }
  }

  lemma {:induction false} AdditionsAreMissing(codes: seq<string>, added: seq<string>, rest: seq<string>)
    ensures forall b :: b in Additions(codes, added, rest) <==>
      b in added || exists c :: c in rest && IsLocale(c) && Base(c) == b && b !in codes
    decreases |rest|
  {
    hide Base, IsLocale;
    if rest != [] {
      var c, tail := rest[0], rest[1..];
      assert forall x :: x in rest <==> x == c || x in tail;
      if IsLocale(c) && Base(c) !in codes && Base(c) !in added {
        AdditionsAreMissing(codes, added + [Base(c)], tail);
      } else {
        AdditionsAreMissing(codes, added, tail);
      }
    }
  }

  /** An added base stands directly behind the first code that starts with it if and only if it is the
      last of the added bases that have this first code. */
  lemma DirectlyBehindIffLatest(codes: seq<string>, b: string)
    requires b in Missing(codes)
    ensures
      var langs := WithFallbacks(codes);
      var k := FirstStarting(langs, b);
      k + 1 < |langs| &&
      (langs[k + 1] == b <==>
         Latest(codes, Additions(codes, [], codes), FirstStarting(codes, b)) == Some(b))
  {
    hide Layout, Additions, Latest, StartsWith;
    AdditionsAreMissing(codes, [], codes);
    FallbacksAreLaidOut(codes);
    NothingAdded(codes);
    AddAllIsLayout(codes, [], codes);
    NextIsLatest(codes, Additions(codes, [], codes), b);
  }
}
