/** The edit distance of bridgedb/util.py: a recursion over offsets and lengths that fills a
    shared memo table, proved equal to the plain recursion, to the cheapest edit script, and
    proved to be a metric. */
module EditDistance {
  import opened Common
  import opened Text

  // ---------------------------------------------------------------- specification

  function Min(a: nat, b: nat): nat { if a <= b then a else b }

  function Max(a: nat, b: nat): nat { if a <= b then b else a }

  /** The plain recursion, without offsets and without a memo. */
  function Distance(a: string, b: string): nat
    decreases |a| + |b|
  {
    if |a| == 0 then |b|
    else if |b| == 0 then |a|
    else
      Min(Min(Distance(a[1..], b) + 1, Distance(a, b[1..]) + 1),
          Distance(a[1..], b[1..]) + (if a[0] == b[0] then 0 else 1))
  }

  /** One edit, applied at the front of what is left of the text. */
  datatype Edit = Keep | Substitute(c: char) | Insert(c: char) | Delete

  function Apply(script: seq<Edit>, a: string): Option<string>
  {
    if |script| == 0 then
      if a == "" then Some("") else None
    else if script[0].Insert? then
      Prepend(script[0].c, Apply(script[1..], a))
    else if a == "" then None
    else match script[0]
      case Keep => Prepend(a[0], Apply(script[1..], a[1..]))
      case Substitute(c) => Prepend(c, Apply(script[1..], a[1..]))
      case Delete => Apply(script[1..], a[1..])
  }

  function Prepend(c: char, s: Option<string>): Option<string>
  {
    match s
    case None => None
    case Some(t) => Some([c] + t)
  }

  /** The number of characters inserted, deleted or substituted. */
  function Cost(script: seq<Edit>): nat
  {
    if |script| == 0 then 0
    else Cost(script[1..]) + (if script[0].Keep? then 0 else 1)
  }

  // ---------------------------------------------------------------- edit scripts

  /** No script turns a into b for less than the distance. */
  lemma {:induction false} DistanceIsLowerBound(script: seq<Edit>, a: string, b: string)
    requires Apply(script, a) == Some(b)
    ensures Distance(a, b) <= Cost(script)
    decreases |script|
  {
    if |script| != 0 {
      var rest := script[1..];
      match script[0]
      case Insert(c) =>
        assert Apply(rest, a) == Some(b[1..]);
        DistanceIsLowerBound(rest, a, b[1..]);
      case Keep =>
        assert Apply(rest, a[1..]) == Some(b[1..]);
        DistanceIsLowerBound(rest, a[1..], b[1..]);
      case Substitute(c) =>
        assert Apply(rest, a[1..]) == Some(b[1..]);
        DistanceIsLowerBound(rest, a[1..], b[1..]);
      case Delete =>
        DistanceIsLowerBound(rest, a[1..], b);
    }
  }

  /** Some script reaches the distance. */
  lemma {:induction false} DistanceIsReached(a: string, b: string) returns (script: seq<Edit>)
    ensures Apply(script, a) == Some(b) && Cost(script) == Distance(a, b)
    decreases |a| + |b|
  {
    if |a| == 0 && |b| == 0 {
      script := [];
    } else if |a| == 0 || (|b| > 0 && Distance(a, b) == Distance(a, b[1..]) + 1) {
      var rest := DistanceIsReached(a, b[1..]);
      script := [Insert(b[0])] + rest;
      assert script[1..] == rest && [b[0]] + b[1..] == b;
    } else if |b| == 0 || Distance(a, b) == Distance(a[1..], b) + 1 {
      var rest := DistanceIsReached(a[1..], b);
      script := [Delete] + rest;
      assert script[1..] == rest;
    } else {
      var rest := DistanceIsReached(a[1..], b[1..]);
      script := [if a[0] == b[0] then Keep else Substitute(b[0])] + rest;
      assert script[1..] == rest && [b[0]] + b[1..] == b;
    }
  }

  // ---------------------------------------------------------------- a metric

  lemma {:induction false} DistanceZeroIffEqual(a: string, b: string)
    ensures Distance(a, b) == 0 <==> a == b
    decreases |a| + |b|
  {
    if |a| > 0 && |b| > 0 {
      DistanceZeroIffEqual(a[1..], b[1..]);
      assert a == [a[0]] + a[1..] && b == [b[0]] + b[1..];
    }
  }

  lemma {:induction false} DistanceSymmetric(a: string, b: string)
    ensures Distance(a, b) == Distance(b, a)
    decreases |a| + |b|
  {
    if |a| > 0 && |b| > 0 {
      DistanceSymmetric(a[1..], b);
      DistanceSymmetric(a, b[1..]);
      DistanceSymmetric(a[1..], b[1..]);
    }
  }

  lemma {:induction false} DistanceBounds(a: string, b: string)
    ensures |a| - |b| <= Distance(a, b) && |b| - |a| <= Distance(a, b)
    ensures Distance(a, b) <= Max(|a|, |b|)
    decreases |a| + |b|
  {
    if |a| > 0 && |b| > 0 {
      DistanceBounds(a[1..], b);
      DistanceBounds(a, b[1..]);
      DistanceBounds(a[1..], b[1..]);
    }
  }

  lemma {:induction false} DistanceTriangle(a: string, b: string, c: string)
    ensures Distance(a, c) <= Distance(a, b) + Distance(b, c)
    decreases |a| + |b| + |c|
  {
    if |b| == 0 {
      DistanceBounds(a, c);
    } else if |a| == 0 {
      DistanceBounds(b, c);
    } else if |c| == 0 {
      DistanceBounds(a, b);
    } else if Distance(a, b) == Distance(a[1..], b) + 1 {
      DistanceTriangle(a[1..], b, c);
    } else if Distance(b, c) == Distance(b, c[1..]) + 1 {
      DistanceTriangle(a, b, c[1..]);
    } else if Distance(b, c) == Distance(b[1..], c) + 1 {
      if Distance(a, b) == Distance(a, b[1..]) + 1 {
        DistanceTriangle(a, b[1..], c);
      } else {
        DistanceTriangle(a[1..], b[1..], c);
      }
    } else {
      if Distance(a, b) == Distance(a, b[1..]) + 1 {
        DistanceTriangle(a, b[1..], c[1..]);
      } else {
        DistanceTriangle(a[1..], b[1..], c[1..]);
      }
    }
  }

  // ---------------------------------------------------------------- the memoised recursion

  /** The key under which the distance of two substrings is remembered. The source prints
      the four numbers with commas between them; PrintedKeyInjective shows that the printed
      text and this value distinguish the same keys. */
  datatype Key = Key(offset1: nat, len1: nat, offset2: nat, len2: nat)

  function Printed(k: Key): string
  {
    Decimal(k.offset1) + [','] +
    (Decimal(k.len1) + [','] + (Decimal(k.offset2) + [','] + Decimal(k.len2)))
  }

  lemma PrintedKeyInjective(k: Key, m: Key)
    ensures Printed(k) == Printed(m) <==> k == m
  {
    if Printed(k) == Printed(m) {
      CutUnique(Decimal(k.offset1), Decimal(k.len1) + [','] + (Decimal(k.offset2) + [','] + Decimal(k.len2)),
                Decimal(m.offset1), Decimal(m.len1) + [','] + (Decimal(m.offset2) + [','] + Decimal(m.len2)), ',');
      CutUnique(Decimal(k.len1), Decimal(k.offset2) + [','] + Decimal(k.len2),
                Decimal(m.len1), Decimal(m.offset2) + [','] + Decimal(m.len2), ',');
      CutUnique(Decimal(k.offset2), Decimal(k.len2), Decimal(m.offset2), Decimal(m.len2), ',');
      DecimalInjective(k.offset1, m.offset1);
      DecimalInjective(k.len1, m.len1);
      DecimalInjective(k.offset2, m.offset2);
      DecimalInjective(k.len2, m.len2);
    }
  }

  ghost predicate InRange(k: Key, s1: string, s2: string)
  {
    k.offset1 + k.len1 <= |s1| && k.offset2 + k.len2 <= |s2|
  }

  /** The distance of the two substrings that a key names. */
  ghost function Named(k: Key, s1: string, s2: string): nat
    requires InRange(k, s1, s2)
  {
    Distance(s1[k.offset1..k.offset1 + k.len1], s2[k.offset2..k.offset2 + k.len2])
  }

  /** Every remembered number is the distance of the substrings its key names. */
  ghost predicate Sound(table: map<Key, nat>, s1: string, s2: string)
  {
    forall k <- table :: InRange(k, s1, s2) && table[k] == Named(k, s1, s2)
  }

  lemma StoreKeepsSound(table: map<Key, nat>, s1: string, s2: string, key: Key, d: nat)
    requires Sound(table, s1, s2) && InRange(key, s1, s2) && d == Named(key, s1, s2)
    ensures Sound(table[key := d], s1, s2)
  {
  }

  lemma NamedEmpty(k: Key, s1: string, s2: string)
    requires InRange(k, s1, s2) && (k.len1 == 0 || k.len2 == 0)
    ensures Named(k, s1, s2) == k.len1 + k.len2
  {
  }

  /** One level of the recursion, in terms of the keys. */
  lemma NamedStep(k: Key, s1: string, s2: string)
    requires InRange(k, s1, s2) && k.len1 > 0 && k.len2 > 0
    ensures Named(k, s1, s2) ==
            Min(Min(Named(Key(k.offset1 + 1, k.len1 - 1, k.offset2, k.len2), s1, s2) + 1,
                    Named(Key(k.offset1, k.len1, k.offset2 + 1, k.len2 - 1), s1, s2) + 1),
                Named(Key(k.offset1 + 1, k.len1 - 1, k.offset2 + 1, k.len2 - 1), s1, s2)
                + (if s1[k.offset1] == s2[k.offset2] then 0 else 1))
  {
    var a, b := s1[k.offset1..k.offset1 + k.len1], s2[k.offset2..k.offset2 + k.len2];
    assert a[1..] == s1[k.offset1 + 1..k.offset1 + k.len1];
    assert b[1..] == s2[k.offset2 + 1..k.offset2 + k.len2];
  }

  /** The dictionary that the recursive calls share. */
  class Memo {
    var table: map<Key, nat>

    constructor ()
      ensures table == map[]
    {
      table := map[];
    }
  }

  /** levenshteinDistance with explicit lengths, offsets and memo. */
  method MemoisedDistance(s1: string, s2: string, len1: nat, len2: nat,
                          offset1: nat, offset2: nat, memo: Memo)
    returns (distance: nat)
    requires offset1 + len1 <= |s1| && offset2 + len2 <= |s2|
    requires Sound(memo.table, s1, s2)
    modifies memo
    ensures Sound(memo.table, s1, s2)
    ensures distance == Named(Key(offset1, len1, offset2, len2), s1, s2)
    decreases len1 + len2
  {
    hide Distance;
    var key := Key(offset1, len1, offset2, len2);
    if key in memo.table {
      return memo.table[key];
    }
    if len1 == 0 {
      NamedEmpty(key, s1, s2);
      return len2;
    } else if len2 == 0 {
      NamedEmpty(key, s1, s2);
      return len1;
    }
    var cost := if s1[offset1] == s2[offset2] then 0 else 1;
    var d1 := MemoisedDistance(s1, s2, len1 - 1, len2, offset1 + 1, offset2, memo);
    var d2 := MemoisedDistance(s1, s2, len1, len2 - 1, offset1, offset2 + 1, memo);
    var d3 := MemoisedDistance(s1, s2, len1 - 1, len2 - 1, offset1 + 1, offset2 + 1, memo);
    distance := Min(Min(d1 + 1, d2 + 1), d3 + cost);
    NamedStep(key, s1, s2);
    StoreKeepsSound(memo.table, s1, s2, key, distance);
    memo.table := memo.table[key := distance];
  }

  /** levenshteinDistance(s1, s2), as callers use it. */
  method LevenshteinDistance(s1: string, s2: string) returns (distance: nat)
    ensures distance == Distance(s1, s2)
  {
    var memo := new Memo();
    distance := MemoisedDistance(s1, s2, |s1|, |s2|, 0, 0, memo);
    assert s1[0..|s1|] == s1 && s2[0..|s2|] == s2;
  }
}
