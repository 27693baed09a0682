/** The Accept-Language parser of bridgedb/parse/headers.py: a list that grows under the lazy
    iterator that walks it. The header is defined in section 14.4 of RFC 2616. */
module Headers {
  import opened Common
  import opened Text

  // ---------------------------------------------------------------- language codes

  predicate IsLocale(code: string) { '-' in code }

  /** code.split('-')[0]. */
  function Base(code: string): (b: string)
    ensures '-' !in b
  {
    Split(code, '-')[0]
  }

  lemma {:induction false} BaseIsPrefix(code: string)
    ensures Base(code) <= code
  {
    if code != "" && code[0] != '-' {
      BaseIsPrefix(code[1..]);
      assert Base(code) == [code[0]] + Base(code[1..]);
      assert code == [code[0]] + code[1..];
    }
  }

  /** The base of a locale code is the text before the first hyphen. */
  lemma {:induction false} BaseIsBeforeHyphen(code: string)
    requires IsLocale(code)
    ensures '-' !in Base(code) && Base(code) + "-" <= code
  {
    assert code == [code[0]] + code[1..];
    if code[0] != '-' {
      BaseIsBeforeHyphen(code[1..]);
      assert Base(code) == [code[0]] + Base(code[1..]);
    }
  }

  // ---------------------------------------------------------------- specification

  function InsertAt(langs: seq<string>, i: nat, code: string): seq<string>
    requires i <= |langs|
  {
    langs[..i] + [code] + langs[i..]
  }

  /** The index of the first code that starts with a prefix; the length when there is none. */
  function FirstStarting(langs: seq<string>, prefix: string): (i: nat)
    ensures i <= |langs|
    ensures i < |langs| ==> StartsWith(langs[i], prefix)
    ensures forall j :: 0 <= j < i ==> !StartsWith(langs[j], prefix)
  {
    if langs == [] || StartsWith(langs[0], prefix) then 0
    else 1 + FirstStarting(langs[1..], prefix)
  }

  /** The fallback of one code, placed behind the first code that starts with it. */
  function AddFallback(langs: seq<string>, code: string): seq<string>
    requires code in langs
  {
    BaseIsPrefix(code);
    if !IsLocale(code) || Base(code) in langs then langs
    else InsertAt(langs, FirstStarting(langs, Base(code)) + 1, Base(code))
  }

  lemma InsertedMembers(langs: seq<string>, k: nat, code: string)
    requires k <= |langs|
    ensures forall x :: x in langs ==> x in InsertAt(langs, k, code)
    ensures code in InsertAt(langs, k, code)
  {
    assert InsertAt(langs, k, code)[k] == code;
    assert langs == langs[..k] + langs[k..];
  }

  lemma FallbackFits(langs: seq<string>, code: string)
    requires code in langs
    ensures FirstStarting(langs, Base(code)) < |langs|
    ensures forall x :: x in langs ==> x in AddFallback(langs, code)
    ensures IsLocale(code) ==> Base(code) in AddFallback(langs, code)
  {
    hide InsertAt, Base, IsLocale;
    BaseIsPrefix(code);
    var i :| 0 <= i < |langs| && langs[i] == code;
    assert StartsWith(langs[i], Base(code));
    var k := FirstStarting(langs, Base(code));
    InsertedMembers(langs, k + 1, Base(code));
  }

  /** Fallbacks for a fixed list of codes, one after the other. */
  function AddAll(langs: seq<string>, codes: seq<string>): seq<string>
    requires forall c :: c in codes ==> c in langs
    decreases |codes|
  {
    if codes == [] then langs
    else
      FallbackFits(langs, codes[0]);
      AddAll(AddFallback(langs, codes[0]), codes[1..])
  }

  /** The fallbacks of a client's codes, all taken from the list as the client sent it. */
  function WithFallbacks(codes: seq<string>): seq<string> { AddAll(codes, codes) }

  /** The bases that a client's codes need and do not contain. */
  ghost function Missing(codes: seq<string>): set<string>
  {
    set c | c in codes && IsLocale(c) && Base(c) !in codes :: Base(c)
  }

  // ---------------------------------------------------------------- the loop

  lemma InsertTail(langs: seq<string>, k: nat, code: string, i: nat)
    requires k <= i + 1 <= |langs|
    ensures |InsertAt(langs, k, code)| == |langs| + 1
    ensures InsertAt(langs, k, code)[i + 1..] ==
      [if k == i + 1 then code else langs[i]] + langs[i + 1..]
  {
  }

  lemma WalkedCodeMatches(langs: seq<string>, i: nat)
    requires i < |langs|
    ensures FirstStarting(langs, Base(langs[i])) <= i
  {
    BaseIsPrefix(langs[i]);
    assert StartsWith(langs[i], Base(langs[i]));
  }

  lemma AddAllStep(langs: seq<string>, code: string, rest: seq<string>)
    requires code in langs && forall c :: c in rest ==> c in langs
    ensures forall c :: c in rest ==> c in AddFallback(langs, code)
    ensures AddAll(langs, [code] + rest) == AddAll(AddFallback(langs, code), rest)
  {
    FallbackFits(langs, code);
    assert ([code] + rest)[1..] == rest;
  }

  /** After an insertion at or before the walked position the iterator meets the same code again,
      after one directly behind it, it meets the fallback; neither changes anything. */
  lemma WalkAgrees(langs: seq<string>, i: nat)
    requires i < |langs|
    ensures
      var grown := AddFallback(langs, langs[i]);
      |grown| > i && AddAll(langs, langs[i..]) == AddAll(grown, grown[i + 1..])
  {
    hide Base, StartsWith, AddAll, FirstStarting, InsertAt;
    var code := langs[i];
    FallbackFits(langs, code);
    var grown := AddFallback(langs, code);
    var rest := langs[i + 1..];
    assert langs[i..] == [code] + rest;
    AddAllStep(langs, code, rest);
    if grown != langs {
      var only := Base(code);
      var k := FirstStarting(langs, only) + 1;
      WalkedCodeMatches(langs, i);
      InsertTail(langs, k, only, i);
      if k == i + 1 {
        AddAllStep(grown, only, rest);
      } else {
        AddAllStep(grown, code, rest);
      }
    }
  }

  /** Adding a fallback makes fewer bases missing. */
  lemma FewerMissing(langs: seq<string>, code: string)
    requires code in langs && IsLocale(code) && Base(code) !in langs
    ensures Missing(AddFallback(langs, code)) < Missing(langs)
  {
    FallbackFits(langs, code);
    var grown := AddFallback(langs, code);
    assert Base(code) in Missing(langs);
    assert Base(code) !in Missing(grown);
    forall b | b in Missing(grown)
      ensures b in Missing(langs)
    {
      var c :| c in grown && IsLocale(c) && Base(c) !in grown && Base(c) == b;
      assert c in langs;
    }
  }

  /** The loop over map(filter(langs)) while langs grows: it ends, its append branch is dead, and
      it computes what a walk over the client's original list would have computed. */
  method AddFallbacksInPlace(codes: seq<string>) returns (langs: seq<string>)
    ensures langs == WithFallbacks(codes)
  {
    langs := codes;
    var i := 0;
    assert codes[0..] == codes;
    while i < |langs|
      invariant i <= |langs|
      invariant AddAll(langs, langs[i..]) == WithFallbacks(codes)
      decreases Missing(langs), |langs| - i
    {
      var code := langs[i];
      WalkAgrees(langs, i);
      if IsLocale(code) {
        var only := Base(code);
        if only !in langs {
          FewerMissing(langs, code);
          FallbackFits(langs, code);
          var placement := FirstStarting(langs, only);
          if placement < |langs| {
            langs := InsertAt(langs, placement + 1, only);
          } else {
            assert false;
          }
        }
      }
      i := i + 1;
    }
    assert langs[i..] == [];
  }

  // ---------------------------------------------------------------- the result

  /** A list without the codes of a set. */
  ghost function Without(langs: seq<string>, added: set<string>): seq<string>
  {
    if langs == [] then []
    else if langs[0] in added then Without(langs[1..], added)
    else [langs[0]] + Without(langs[1..], added)
  }

  lemma {:induction false} WithoutConcat(a: seq<string>, b: seq<string>, added: set<string>)
    ensures Without(a + b, added) == Without(a, added) + Without(b, added)
  {
    if a == [] {
      assert a + b == b;
    } else {
      WithoutConcat(a[1..], b, added);
      assert (a + b)[1..] == a[1..] + b;
    }
  }

  lemma WithoutInsert(langs: seq<string>, i: nat, code: string, added: set<string>)
    requires i <= |langs| && code in added
    ensures Without(InsertAt(langs, i, code), added) == Without(langs, added)
  {
    var a, b := langs[..i], langs[i..];
    assert Without([code], added) == [];
    hide Without;
    WithoutConcat(a + [code], b, added);
    WithoutConcat(a, [code], added);
    assert Without(a + [code], added) == Without(a, added);
    WithoutConcat(a, b, added);
    assert langs == a + b;
  }

  lemma {:induction false} WithoutNone(langs: seq<string>, added: set<string>)
    requires forall c :: c in langs ==> c !in added
    ensures Without(langs, added) == langs
  {
    if langs != [] {
      WithoutNone(langs[1..], added);
    }
  }

  /** An added code occurs once, behind the first code that starts with it, and only other added
      codes stand between the two. */
  ghost predicate Placed(langs: seq<string>, b: string, added: set<string>)
  {
    exists q, p | 0 <= q < p < |langs| :: PlacedAt(langs, b, added, q, p)
  }

  ghost predicate PlacedAt(langs: seq<string>, b: string, added: set<string>, q: int, p: int)
    requires 0 <= q < p < |langs|
  {
    && langs[p] == b
    && (forall k :: 0 <= k < |langs| && langs[k] == b ==> k == p)
    && StartsWith(langs[q], b)
    && (forall k :: 0 <= k < q ==> !StartsWith(langs[k], b))
    && (forall k :: q < k < p ==> langs[k] in added)
  }

  /** What every step of the walk keeps. */
  ghost predicate Grown(codes: seq<string>, langs: seq<string>)
  {
    var added := Missing(codes);
    && Without(langs, added) == codes
    && (forall c :: c in langs ==> c in codes || c in added)
    && (forall c :: c in codes ==> c in langs)
    && (forall b :: b in added && b in langs ==> Placed(langs, b, added))
  }

  lemma InsertShape(langs: seq<string>, k: nat, code: string)
    requires k <= |langs|
    ensures
      var grown := InsertAt(langs, k, code);
      && |grown| == |langs| + 1 && grown[k] == code
      && (forall m :: 0 <= m < k ==> grown[m] == langs[m])
      && (forall m :: k < m < |grown| ==> grown[m] == langs[m - 1])
  {
  }

  lemma StartsTransitive(s: string, t: string, u: string)
    ensures StartsWith(s, t) && StartsWith(t, u) ==> StartsWith(s, u)
  {
  }

  lemma PlacedAfterInsert(langs: seq<string>, b: string, added: set<string>, only: string)
    requires Placed(langs, b, added)
    requires b != only && only in added
    requires FirstStarting(langs, only) < |langs|
    ensures Placed(InsertAt(langs, FirstStarting(langs, only) + 1, only), b, added)
  {
    hide FirstStarting, InsertAt, StartsWith;
    var q, p :| 0 <= q < p < |langs| && PlacedAt(langs, b, added, q, p);
    var j := FirstStarting(langs, only);
    var k := j + 1;
    var grown := InsertAt(langs, k, only);
    InsertShape(langs, k, only);
    StartsTransitive(langs[j], only, b);
    assert PlacedAt(grown, b, added, if k <= q then q + 1 else q, if k <= p then p + 1 else p);
  }

  lemma PlacedWhenInserted(langs: seq<string>, only: string, added: set<string>)
    requires only !in langs && FirstStarting(langs, only) < |langs|
    ensures Placed(InsertAt(langs, FirstStarting(langs, only) + 1, only), only, added)
  {
    hide FirstStarting, InsertAt, StartsWith;
    var j := FirstStarting(langs, only);
    InsertShape(langs, j + 1, only);
    assert PlacedAt(InsertAt(langs, j + 1, only), only, added, j, j + 1);
  }

  lemma StepKeepsGrown(codes: seq<string>, langs: seq<string>, code: string)
    requires Grown(codes, langs) && code in codes
    ensures code in langs && Grown(codes, AddFallback(langs, code))
  {
    hide FirstStarting, StartsWith, Placed, Base, Without, InsertAt;
    FallbackFits(langs, code);
    var grown := AddFallback(langs, code);
    if grown != langs {
      var added := Missing(codes);
      var only := Base(code);
      assert only in added;
      var k := FirstStarting(langs, only) + 1;
      WithoutInsert(langs, k, only, added);
      InsertShape(langs, k, only);
      forall b | b in added && b in grown
        ensures Placed(grown, b, added)
      {
        if b == only {
          PlacedWhenInserted(langs, only, added);
        } else {
          PlacedAfterInsert(langs, b, added, only);
        }
      }
    }
  }

  lemma {:induction false} AddAllKeepsGrown(codes: seq<string>, langs: seq<string>, rest: seq<string>)
    requires Grown(codes, langs)
    requires forall c :: c in rest ==> c in codes
    ensures Grown(codes, AddAll(langs, rest))
    ensures forall c :: c in langs ==> c in AddAll(langs, rest)
    ensures forall c :: c in rest && IsLocale(c) ==> Base(c) in AddAll(langs, rest)
    decreases |rest|
  {
    if rest != [] {
      StepKeepsGrown(codes, langs, rest[0]);
      FallbackFits(langs, rest[0]);
      AddAllKeepsGrown(codes, AddFallback(langs, rest[0]), rest[1..]);
    }
  }

  /** The whole result: taking the added bases out gives the client's codes in their order, every
      locale code's base is there, and each added base stands once and in its place. */
  lemma FallbacksCorrect(codes: seq<string>)
    ensures
      var result, added := WithFallbacks(codes), Missing(codes);
      && Without(result, added) == codes
      && (forall c :: c in codes && IsLocale(c) ==> Base(c) in result)
      && (forall c :: c in result ==> c in codes || c in added)
      && (forall b :: b in added ==> Placed(result, b, added))
  {
    var added := Missing(codes);
    WithoutNone(codes, added);
    AddAllKeepsGrown(codes, codes, codes);
    forall b | b in added
      ensures b in WithFallbacks(codes)
    {
      var c :| c in codes && IsLocale(c) && Base(c) !in codes && Base(c) == b;
    }
  }

  // ---------------------------------------------------------------- the header

  /** One comma-separated part without its quality; None where unpacking two parts fails. */
  function CodeOf(part: string): Option<string>
  {
    if ';' !in part then Some(part)
    else if |Split(part, ';')| == 2 then Some(Split(part, ';')[0])
    else None
  }

  /** The client's codes in order, or None when some part has two semicolons or more. */
  function CodesOf(parts: seq<string>): Option<seq<string>>
  {
    if parts == [] then Some([])
    else match (CodeOf(parts[0]), CodesOf(parts[1..]))
      case (Some(code), Some(rest)) => Some([code] + rest)
      case _ => None
  }

  function Underscored(code: string): (u: string)
    ensures |u| == |code| && '-' !in u
  {
    seq(|code|, i requires 0 <= i < |code| => if code[i] == '-' then '_' else code[i])
  }

  /** A code as a client writes it, with or without its quality. */
  function Written(code: string, quality: Option<string>): string
  {
    if quality.Some? then code + ";" + quality.value else code
  }

  predicate Bare(s: string) { ',' !in s && ';' !in s }

  lemma CodeOfWritten(code: string, quality: Option<string>)
    requires Bare(code) && (quality.Some? ==> Bare(quality.value))
    ensures CodeOf(Written(code, quality)) == Some(code) && ',' !in Written(code, quality)
  {
    if quality.Some? {
      SplitFirstWord(code, quality.value, ';');
      SplitOneWord(quality.value, ';');
      assert Written(code, quality)[|code|] == ';';
    }
  }

  /** Codes that a client writes into a header, with or without qualities, are read back. */
  lemma {:induction false} CodesAreReadBack(codes: seq<string>, qualities: seq<Option<string>>, parts: seq<string>)
    requires |codes| == |qualities| == |parts|
    requires forall i :: 0 <= i < |codes| ==>
      && Bare(codes[i]) && (qualities[i].Some? ==> Bare(qualities[i].value))
      && parts[i] == Written(codes[i], qualities[i])
    ensures CodesOf(parts) == Some(codes)
    ensures parts != [] ==> Split(Join(parts, ','), ',') == parts
  {
    if codes != [] {
      CodesAreReadBack(codes[1..], qualities[1..], parts[1..]);
      CodeOfWritten(codes[0], qualities[0]);
      assert codes == [codes[0]] + codes[1..];
      forall i | 0 <= i < |parts|
        ensures ',' !in parts[i]
      {
        CodeOfWritten(codes[i], qualities[i]);
      }
      SplitOfJoin(parts, ',');
    }
  }

  /** A header is refused exactly when some part of it has two semicolons or more. */
  lemma {:induction false} RefusedIffTwoSemicolons(parts: seq<string>)
    ensures CodesOf(parts) == None <==> exists part :: part in parts && |Split(part, ';')| > 2
  {
    if parts != [] {
      RefusedIffTwoSemicolons(parts[1..]);
      OneWordIffNone(parts[0]);
    }
  }

  lemma {:induction false} OneWordIffNone(part: string)
    ensures |Split(part, ';')| == 1 <==> ';' !in part
  {
    JoinOfSplit(part, ';');
    if ';' !in part {
      SplitOneWord(part, ';');
    }
  }

  /** Underscores stand exactly where hyphens were, or where the client wrote them. */
  lemma UnderscoresForHyphens(code: string, i: nat)
    requires i < |code|
    ensures Underscored(code)[i] == '_' <==> code[i] in "-_"
    ensures Underscored(code)[i] != '_' ==> Underscored(code)[i] == code[i]
  {
  }

  lemma {:induction false} CodesOfAppend(parts: seq<string>, part: string)
    ensures CodesOf(parts + [part]) ==
      match (CodesOf(parts), CodeOf(part))
      case (Some(codes), Some(code)) => Some(codes + [code])
      case _ => None
  {
    if parts == [] {
      assert parts + [part] == [part];
      assert CodesOf([part][1..]) == Some([]);
      if CodeOf(part).Some? {
        assert [CodeOf(part).value] + [] == [] + [CodeOf(part).value];
      }
    } else {
      CodesOfAppend(parts[1..], part);
      var longer := parts + [part];
      assert longer[0] == parts[0] && longer[1..] == parts[1..] + [part];
      if CodesOf(parts).Some? && CodeOf(part).Some? {
        var first, rest := CodeOf(parts[0]).value, CodesOf(parts[1..]).value;
        assert [first] + (rest + [CodeOf(part).value]) == ([first] + rest) + [CodeOf(part).value];
      }
    }
  }

  lemma {:induction false} CodesOfPrefixFails(parts: seq<string>, i: nat)
    requires i <= |parts| && CodesOf(parts[..i]).None?
    ensures CodesOf(parts).None?
    decreases |parts| - i
  {
    if i < |parts| {
      CodesOfAppend(parts[..i], parts[i]);
      assert parts[..i + 1] == parts[..i] + [parts[i]];
      CodesOfPrefixFails(parts, i + 1);
    } else {
      assert parts[..i] == parts;
    }
  }

  /** parseAcceptLanguage; None where it raises ValueError. */
  method ParseAcceptLanguage(header: Option<string>) returns (result: Option<seq<string>>)
    ensures header.None? || header.value == "" ==> result == Some([])
    ensures header.Some? && header.value != "" ==>
      match CodesOf(Split(header.value, ','))
      case None => result == None
      case Some(codes) =>
        result.Some? && |result.value| == |WithFallbacks(codes)| &&
        forall i :: 0 <= i < |result.value| ==>
          result.value[i] == Underscored(WithFallbacks(codes)[i])
  {
    if header.None? || header.value == "" {
      return Some([]);
    }
    var parts := Split(header.value, ',');
    var langs := [];
    for i := 0 to |parts|
      invariant CodesOf(parts[..i]) == Some(langs)
    {
      var lang := parts[i];
      CodesOfAppend(parts[..i], lang);
      assert parts[..i + 1] == parts[..i] + [lang];
      if ';' in lang {
        var pieces := Split(lang, ';');
        if |pieces| != 2 {
          CodesOfPrefixFails(parts, i + 1);
          return None;
        }
        langs := langs + [pieces[0]];
      } else {
        langs := langs + [lang];
      }
    }
    assert parts[..|parts|] == parts;
    var grown := AddFallbacksInPlace(langs);
    result := Some(seq(|grown|, i requires 0 <= i < |grown| => Underscored(grown[i])));
  }
}
