/** The bridge filters of bridgedb/filters.py and the memo that all of them share. The memo is
    keyed by names, and different filters can have the same name; this module proves when that is
    harmless. */
module Filters {
  import opened Common
  import opened Text
  import opened Storage
  import opened BridgeData
  import opened Blocking

  // ---------------------------------------------------------------- what filters test

  type KeyId = nat

  /** The keyed HMAC functions that subring filters use: the keys in use, the word that stands for
      a key in names, and the number that a key gives to a bridge. */
  datatype Hmacs = Hmacs(
    keys: set<KeyId>,
    tag: KeyId -> string,
    position: (KeyId, Fingerprint) -> nat)

  /** A function that one of the factories makes. Method names and country codes are in lower case;
      a filter for no particular transport has the empty method name. */
  datatype Filter =
    | ByIPv(version: int)
    | ByProbingResistance(methodname: string, version: int)
    | ByTransport(methodname: string, version: int)
    | ByNotBlockedIn(country: string, methodname: string, version: int)
    | BySubring(key: KeyId, number: nat, total: nat)

  /** The test that a filter performs on a bridge. */
  predicate Passes(h: Hmacs, f: Filter, b: Bridge)
  {
    match f
    case ByIPv(v) => HasIPv(v, b)
    case ByProbingResistance(m, v) =>
      (m == "vanilla" ==> HasIPv(v, b)) &&
      (HasProbingResistantPT(b) ==> m == "scramblesuit" || m == "obfs4")
    case ByTransport(m, v) => HasTransport(m, v, b)
    case ByNotBlockedIn(c, m, v) =>
      if m == "" then !IsBlockedIn(b, c)
      else if m == "vanilla" then HasIPv(v, b) && !AddressIsBlockedIn(b, c, b.address, b.orPort)
      else !TransportIsBlockedIn(b, c, m) && HasTransport(m, v, b)
    case BySubring(k, number, total) =>
      total > 0 && h.position(k, b.fingerprint) % total + 1 == number
  }

  predicate HasIPv(v: int, b: Bridge)
  {
    IsIPv(v, b.address) ||
    exists a :: a in AllVanillaAddresses(b) && (a.version == v || IsIPv(v, a.address))
  }

  predicate HasTransport(m: string, v: int, b: Bridge)
  {
    exists t :: t in b.transports && t.methodname == m && t.address.version == v
  }

  /** The plain conjunction of a set of filters. */
  predicate PassesAll(h: Hmacs, fs: set<Filter>, b: Bridge)
  {
    forall f :: f in fs ==> Passes(h, f, b)
  }

  // ---------------------------------------------------------------- names

  function IPvWord(v: int): string { if v == 6 then "ipv6" else "ipv4" }

  function ResistanceWord(m: string): string { "by-probing-resistance-" + m }

  function TransportWord(m: string): string { "transport-" + m }

  function BlockedWord(c: string): string { "not-blocked-in-" + c }

  function SubringWord(h: Hmacs, k: KeyId, number: nat, total: nat): string
  {
    h.tag(k) + ['-'] + (Decimal(number) + ['-'] + ("of-" + Decimal(total)))
  }

  /** filtre.name.split(" "). */
  function Words(h: Hmacs, f: Filter): seq<string>
  {
    match f
    case ByIPv(v) => [IPvWord(v)]
    case ByProbingResistance(m, v) => [ResistanceWord(m), IPvWord(v)]
    case ByTransport(m, v) => [TransportWord(m), IPvWord(v)]
    case ByNotBlockedIn(c, m, v) =>
      (if m == "" then [] else [TransportWord(m)]) + [IPvWord(v), BlockedWord(c)]
    case BySubring(k, number, total) => [SubringWord(h, k, number, total)]
  }

  function Name(h: Hmacs, f: Filter): string { Join(Words(h, f), ' ') }

  /** A text that stays one word in a name. */
  predicate IsWord(s: string) { ' ' !in s }

  /** What the factories make of words: versions 4 and 6, and a method name where one is needed. */
  predicate Normal(h: Hmacs, f: Filter)
  {
    match f
    case ByIPv(v) => v == 4 || v == 6
    case ByProbingResistance(m, v) => (v == 4 || v == 6) && IsWord(m)
    case ByTransport(m, v) => (v == 4 || v == 6) && IsWord(m) && m != ""
    case ByNotBlockedIn(c, m, v) => (v == 4 || v == 6) && IsWord(m) && IsWord(c)
    case BySubring(k, number, total) => k in h.keys
  }

  predicate IsHexDigit(c: char) { '0' <= c <= '9' || 'a' <= c <= 'f' }

  predicate IsHex(s: string) { |s| > 0 && forall i :: 0 <= i < |s| ==> IsHexDigit(s[i]) }

  /** A tag is the hex of eight hex digits, so it starts with a digit; the keys in use have
      different tags. */
  ghost predicate GoodTags(h: Hmacs)
  {
    && (forall k :: IsHex(h.tag(k)) && IsDigit(h.tag(k)[0]))
    && (forall k, l :: k in h.keys && l in h.keys && h.tag(k) == h.tag(l) ==> k == l)
  }

  // ---------------------------------------------------------------- words tell filters apart

  lemma WordsHaveNoSpace(h: Hmacs, f: Filter)
    requires GoodTags(h) && Normal(h, f)
    ensures |Words(h, f)| > 0
    ensures forall w :: w in Words(h, f) ==> ' ' !in w
  {
    if f.BySubring? {
      assert ' ' !in h.tag(f.key);
      assert ' ' !in Decimal(f.number) && ' ' !in Decimal(f.total);
    }
  }

  /** Splitting a filter's name gives its words. */
  lemma NameSplits(h: Hmacs, f: Filter)
    requires GoodTags(h) && Normal(h, f)
    ensures Split(Name(h, f), ' ') == Words(h, f)
  {
    WordsHaveNoSpace(h, f);
    SplitOfJoin(Words(h, f), ' ');
  }

  /** The five kinds of words start differently. */
  lemma WordKinds(h: Hmacs, m: string, c: string, v: int, k: KeyId, number: nat, total: nat)
    requires GoodTags(h)
    ensures |IPvWord(v)| > 0 && |ResistanceWord(m)| > 0 && |TransportWord(m)| > 0 && |BlockedWord(c)| > 0
    ensures IPvWord(v)[0] == 'i' && ResistanceWord(m)[0] == 'b' && TransportWord(m)[0] == 't'
    ensures BlockedWord(c)[0] == 'n'
    ensures |SubringWord(h, k, number, total)| > 0
    ensures IsDigit(SubringWord(h, k, number, total)[0])
  {
    assert SubringWord(h, k, number, total)[0] == h.tag(k)[0];
  }

  lemma PrefixedInjective(p: string, a: string, b: string)
    requires p + a == p + b
    ensures a == b
  {
    assert a == (p + a)[|p|..];
    assert b == (p + b)[|p|..];
  }

  lemma SubringWordInjective(h: Hmacs, k: KeyId, i: nat, n: nat, l: KeyId, j: nat, o: nat)
    requires GoodTags(h) && k in h.keys && l in h.keys
    requires SubringWord(h, k, i, n) == SubringWord(h, l, j, o)
    ensures k == l && i == j && n == o
  {
    assert '-' !in h.tag(k) && '-' !in h.tag(l);
    CutUnique(h.tag(k), Decimal(i) + ['-'] + ("of-" + Decimal(n)),
              h.tag(l), Decimal(j) + ['-'] + ("of-" + Decimal(o)), '-');
    CutUnique(Decimal(i), "of-" + Decimal(n), Decimal(j), "of-" + Decimal(o), '-');
    PrefixedInjective("of-", Decimal(n), Decimal(o));
    DecimalInjective(i, j);
    DecimalInjective(n, o);
  }

  /** What a word of a filter says about it. */
  lemma ResistanceWordMeans(h: Hmacs, f: Filter, m: string)
    requires GoodTags(h) && ResistanceWord(m) in Words(h, f)
    ensures f.ByProbingResistance? && f.methodname == m
  {
    WordKindsOf(h, f);
    WordKinds(h, m, "", 4, 0, 0, 0);
    if f.ByProbingResistance? {
      assert ResistanceWord(m) == ResistanceWord(f.methodname);
      PrefixedInjective("by-probing-resistance-", m, f.methodname);
    }
  }

  lemma TransportWordMeans(h: Hmacs, f: Filter, m: string)
    requires GoodTags(h) && TransportWord(m) in Words(h, f)
    ensures f.ByTransport? || f.ByNotBlockedIn?
    ensures f.methodname == m
    ensures f.ByNotBlockedIn? ==> m != ""
  {
    WordKindsOf(h, f);
    WordKinds(h, m, "", 4, 0, 0, 0);
    if f.ByTransport? || f.ByNotBlockedIn? {
      assert TransportWord(m) == TransportWord(f.methodname);
      PrefixedInjective("transport-", m, f.methodname);
    }
  }

  lemma BlockedWordMeans(h: Hmacs, f: Filter, c: string)
    requires GoodTags(h) && BlockedWord(c) in Words(h, f)
    ensures f.ByNotBlockedIn? && f.country == c
  {
    WordKindsOf(h, f);
    WordKinds(h, "", c, 4, 0, 0, 0);
    if f.ByNotBlockedIn? {
      assert BlockedWord(c) == BlockedWord(f.country);
      PrefixedInjective("not-blocked-in-", c, f.country);
    }
  }

  lemma IPvWordMeans(h: Hmacs, f: Filter, v: int)
    requires GoodTags(h) && Normal(h, f) && (v == 4 || v == 6) && IPvWord(v) in Words(h, f)
    ensures !f.BySubring? && f.version == v
  {
    WordKindsOf(h, f);
    WordKinds(h, "", "", v, 0, 0, 0);
    if !f.BySubring? {
      assert IPvWord(v) == IPvWord(f.version);
      assert IPvWord(4)[3] == '4' && IPvWord(6)[3] == '6';
    }
  }

  lemma SubringWordMeans(h: Hmacs, f: Filter, k: KeyId, i: nat, n: nat)
    requires GoodTags(h) && Normal(h, f) && k in h.keys && SubringWord(h, k, i, n) in Words(h, f)
    ensures f == BySubring(k, i, n)
  {
    WordKindsOf(h, f);
    WordKinds(h, "", "", 4, k, i, n);
    if f.BySubring? {
      SubringWordInjective(h, k, i, n, f.key, f.number, f.total);
    }
  }

  /** The first letter of every word of a filter gives its kind away. */
  lemma WordKindsOf(h: Hmacs, f: Filter)
    requires GoodTags(h)
    ensures forall w :: w in Words(h, f) ==> |w| > 0
    ensures forall w :: w in Words(h, f) && w[0] == 'b' ==>
      f.ByProbingResistance? && w == ResistanceWord(f.methodname)
    ensures forall w :: w in Words(h, f) && w[0] == 't' ==>
      (f.ByTransport? || (f.ByNotBlockedIn? && f.methodname != "")) && w == TransportWord(f.methodname)
    ensures forall w :: w in Words(h, f) && w[0] == 'n' ==>
      f.ByNotBlockedIn? && w == BlockedWord(f.country)
    ensures forall w :: w in Words(h, f) && w[0] == 'i' ==>
      !f.BySubring? && w == IPvWord(f.version)
    ensures forall w :: w in Words(h, f) && IsDigit(w[0]) ==>
      f.BySubring? && w == SubringWord(h, f.key, f.number, f.total)
  {
    hide IPvWord, ResistanceWord, TransportWord, BlockedWord, SubringWord;
    match f
    case ByIPv(v) => WordKinds(h, "", "", v, 0, 0, 0);
    case ByProbingResistance(m, v) => WordKinds(h, m, "", v, 0, 0, 0);
    case ByTransport(m, v) => WordKinds(h, m, "", v, 0, 0, 0);
    case ByNotBlockedIn(c, m, v) => WordKinds(h, m, c, v, 0, 0, 0);
    case BySubring(k, i, n) => WordKinds(h, "", "", 4, k, i, n);
  }

  // ---------------------------------------------------------------- meaning of word sets

  ghost function WordSet(h: Hmacs, fs: set<Filter>): set<string>
  {
    set f, w | f in fs && w in Words(h, f) :: w
  }

  /** Filter sets that speak of one IP version and one method, do not test a transport both with
      and without countries, and test a bare IP version beside the vanilla resistance filter at
      most. */
  ghost predicate CoherentFor(h: Hmacs, fs: set<Filter>, v: int, m: string)
  {
    && (forall f :: f in fs ==> Normal(h, f))
    && (forall f :: f in fs && !f.BySubring? ==> f.version == v)
    && (forall f :: f in fs && (f.ByProbingResistance? || f.ByTransport? || f.ByNotBlockedIn?) ==>
          f.methodname == m)
    && (forall f, g :: f in fs && g in fs && f.ByTransport? ==> !g.ByNotBlockedIn?)
    && (forall f, g :: f in fs && g in fs && f.ByIPv? ==>
          !g.ByTransport? && !g.ByNotBlockedIn? && (g.ByProbingResistance? ==> m == "vanilla"))
  }

  ghost predicate Coherent(h: Hmacs, fs: set<Filter>)
  {
    exists v, m :: CoherentFor(h, fs, v, m)
  }

  /** The filters that a set of words stands for. */
  ghost predicate Denotes(h: Hmacs, ws: set<string>, f: Filter)
  {
    Normal(h, f) &&
    match f
    case ByIPv(v) =>
      IPvWord(v) in ws &&
      (forall m :: TransportWord(m) !in ws) &&
      (forall c :: BlockedWord(c) !in ws) &&
      (forall m :: ResistanceWord(m) in ws ==> m == "vanilla")
    case ByProbingResistance(m, v) => ResistanceWord(m) in ws && IPvWord(v) in ws
    case ByTransport(m, v) =>
      TransportWord(m) in ws && IPvWord(v) in ws && forall c :: BlockedWord(c) !in ws
    case ByNotBlockedIn(c, m, v) =>
      BlockedWord(c) in ws && IPvWord(v) in ws &&
      (if m == "" then forall n :: TransportWord(n) !in ws else TransportWord(m) in ws)
    case BySubring(k, i, n) => SubringWord(h, k, i, n) in ws
  }

  /** Every filter of a coherent set is denoted by the words of the set. */
  lemma MembersAreDenoted(h: Hmacs, fs: set<Filter>, v: int, m: string, f: Filter)
    requires GoodTags(h) && CoherentFor(h, fs, v, m) && f in fs
    ensures Denotes(h, WordSet(h, fs), f)
  {
    var ws := WordSet(h, fs);
    assert forall w :: w in Words(h, f) ==> w in ws;
    forall n | TransportWord(n) in ws
      ensures exists g :: g in fs && (g.ByTransport? || (g.ByNotBlockedIn? && n != "")) && g.methodname == n
    {
      var g :| g in fs && TransportWord(n) in Words(h, g);
      TransportWordMeans(h, g, n);
    }
    forall c | BlockedWord(c) in ws
      ensures exists g :: g in fs && g.ByNotBlockedIn?
    {
      var g :| g in fs && BlockedWord(c) in Words(h, g);
      BlockedWordMeans(h, g, c);
    }
    forall n | ResistanceWord(n) in ws
      ensures exists g :: g in fs && g.ByProbingResistance? && g.methodname == n
    {
      var g :| g in fs && ResistanceWord(n) in Words(h, g);
      ResistanceWordMeans(h, g, n);
    }
  }

  /** Every filter that the words of a coherent set denote is in the set or implied by it. */
  lemma DenotedAreImplied(h: Hmacs, fs: set<Filter>, v: int, m: string, f: Filter, b: Bridge)
    requires GoodTags(h) && CoherentFor(h, fs, v, m) && Denotes(h, WordSet(h, fs), f)
    requires PassesAll(h, fs, b)
    ensures Passes(h, f, b)
  {
    var ws := WordSet(h, fs);
    match f
    case ByIPv(u) =>
      var g :| g in fs && IPvWord(u) in Words(h, g);
      IPvWordMeans(h, g, u);
      assert forall w :: w in Words(h, g) ==> w in ws;
      assert Passes(h, g, b);
    case ByProbingResistance(n, u) =>
      var g :| g in fs && ResistanceWord(n) in Words(h, g);
      ResistanceWordMeans(h, g, n);
      var g' :| g' in fs && IPvWord(u) in Words(h, g');
      IPvWordMeans(h, g', u);
      assert g == f;
    case ByTransport(n, u) =>
      var g :| g in fs && TransportWord(n) in Words(h, g);
      TransportWordMeans(h, g, n);
      var g' :| g' in fs && IPvWord(u) in Words(h, g');
      IPvWordMeans(h, g', u);
      assert forall w :: w in Words(h, g) ==> w in ws;
      assert g == f;
    case ByNotBlockedIn(c, n, u) =>
      var g :| g in fs && BlockedWord(c) in Words(h, g);
      BlockedWordMeans(h, g, c);
      var g' :| g' in fs && IPvWord(u) in Words(h, g');
      IPvWordMeans(h, g', u);
      assert forall w :: w in Words(h, g) ==> w in ws;
      if n != "" {
        var t :| t in fs && TransportWord(n) in Words(h, t);
        TransportWordMeans(h, t, n);
      }
      assert g == f;
    case BySubring(k, i, n) =>
      var g :| g in fs && SubringWord(h, k, i, n) in Words(h, g);
      SubringWordMeans(h, g, k, i, n);
  }

  /** The words of a coherent set determine what the set tests. */
  lemma WordsDetermineMeaning(h: Hmacs, fs: set<Filter>, b: Bridge)
    requires GoodTags(h) && Coherent(h, fs)
    ensures PassesAll(h, fs, b) <==>
      forall f :: Denotes(h, WordSet(h, fs), f) ==> Passes(h, f, b)
  {
    var v, m :| CoherentFor(h, fs, v, m);
    if PassesAll(h, fs, b) {
      forall f | Denotes(h, WordSet(h, fs), f)
        ensures Passes(h, f, b)
      {
        DenotedAreImplied(h, fs, v, m, f, b);
      }
    }
    if forall f :: Denotes(h, WordSet(h, fs), f) ==> Passes(h, f, b) {
      forall f | f in fs
        ensures Passes(h, f, b)
      {
        MembersAreDenoted(h, fs, v, m, f);
      }
    }
  }

  /** Name collisions between coherent filter sets are harmless. */
  lemma CollisionsAreHarmless(h: Hmacs, fs: set<Filter>, gs: set<Filter>, b: Bridge)
    requires GoodTags(h) && Coherent(h, fs) && Coherent(h, gs)
    requires WordSet(h, fs) == WordSet(h, gs)
    ensures PassesAll(h, fs, b) == PassesAll(h, gs, b)
  {
    WordsDetermineMeaning(h, fs, b);
    WordsDetermineMeaning(h, gs, b);
  }

  lemma SingletonsAreCoherent(h: Hmacs, f: Filter)
    requires Normal(h, f)
    ensures Coherent(h, {f})
  {
    var v := if f.BySubring? then 4 else f.version;
    var m := if f.ByProbingResistance? || f.ByTransport? || f.ByNotBlockedIn? then f.methodname else "";
    assert CoherentFor(h, {f}, v, m);
  }

  lemma SubringsKeepCoherence(h: Hmacs, fs: set<Filter>, subrings: set<Filter>)
    requires Coherent(h, fs) && forall f :: f in subrings ==> f.BySubring? && Normal(h, f)
    ensures Coherent(h, fs + subrings)
  {
    var v, m :| CoherentFor(h, fs, v, m);
    assert CoherentFor(h, fs + subrings, v, m);
  }

  /** A resistance filter and the bare version filter share the words of the resistance filter
      alone; the collision is harmless exactly for "vanilla". */
  lemma ResistanceCollision(h: Hmacs, m: string, v: int)
    requires GoodTags(h) && IsWord(m) && (v == 4 || v == 6)
    ensures
      var both, one := {ByProbingResistance(m, v), ByIPv(v)}, {ByProbingResistance(m, v)};
      && WordSet(h, both) == WordSet(h, one)
      && ((forall b :: PassesAll(h, both, b) == PassesAll(h, one, b)) <==> m == "vanilla")
  {
    var r, i := ByProbingResistance(m, v), ByIPv(v);
    var both, one := {r, i}, {r};
    assert Words(h, r) == [ResistanceWord(m), IPvWord(v)] && Words(h, i) == [IPvWord(v)];
    forall w
      ensures w in WordSet(h, both) <==> w in WordSet(h, one)
    {
      assert w in WordSet(h, one) <==> w in Words(h, r);
      if w in WordSet(h, both) {
        var f :| f in both && w in Words(h, f);
      }
      if w in Words(h, r) {
        assert r in both;
      }
    }
    var none := Bridge("", None, 0, [], [], map[], true, true, "any");
    assert AllVanillaAddresses(none) == [OrAddress(None, 0, 4)];
    var bare := Bridge("", Some(Address(10 - v, 0)), 0, [], [], map[], true, true, "any");
    assert AllVanillaAddresses(bare) == [OrAddress(Some(Address(10 - v, 0)), 0, 10 - v)];
    assert !HasIPv(v, bare);
    assert !HasProbingResistantPT(bare);
    assert i in both && !Passes(h, i, bare);
    if m != "vanilla" {
      assert PassesAll(h, one, bare) && !PassesAll(h, both, bare);
    } else {
      forall b
        ensures PassesAll(h, both, b) == PassesAll(h, one, b)
      {
        assert r in one && r in both;
      }
    }
  }

  // ---------------------------------------------------------------- the memo

  /** What the memo holds under a name: a filter of a factory, or a conjunction. */
  datatype Cached = One(f: Filter) | All(fs: set<Filter>)

  predicate CachedPasses(h: Hmacs, c: Cached, b: Bridge)
  {
    match c
    case One(f) => Passes(h, f, b)
    case All(fs) => PassesAll(h, fs, b)
  }

  /** A list of a set of words, each once, in some order. */
  ghost predicate Lists(order: seq<string>, ws: set<string>)
  {
    && (forall w :: w in order <==> w in ws)
    && (forall i, j :: 0 <= i < j < |order| ==> order[i] != order[j])
  }

  /** What the memo may hold under a name. */
  ghost predicate GoodEntry(h: Hmacs, name: string, c: Cached)
  {
    match c
    case One(f) => Normal(h, f) && name == Name(h, f)
    case All(fs) =>
      Coherent(h, fs) && fs != {} &&
      exists order :: Lists(order, WordSet(h, fs)) && name == Join(order, ' ')
  }

  ghost predicate GoodTable(h: Hmacs, table: map<string, Cached>)
  {
    && (forall name :: name in table ==> GoodEntry(h, name, table[name]))
    && (forall f :: Normal(h, f) && Name(h, f) in table ==> table[Name(h, f)] == One(f))
  }

  /** Names of factory filters are different. */
  lemma NameInjective(h: Hmacs, f: Filter, g: Filter)
    requires GoodTags(h) && Normal(h, f) && Normal(h, g) && Name(h, f) == Name(h, g)
    ensures f == g
  {
    NameSplits(h, f);
    NameSplits(h, g);
    assert Words(h, f) == Words(h, g);
    WordsInjective(h, f, g);
  }

  lemma WordsInjective(h: Hmacs, f: Filter, g: Filter)
    requires GoodTags(h) && Normal(h, f) && Normal(h, g)
    requires forall w :: w in Words(h, f) <==> w in Words(h, g)
    ensures f == g
  {
    assert forall w :: w in Words(h, f) ==> w in Words(h, g);
    match f
    case ByIPv(v) =>
      assert IPvWord(v) in Words(h, f);
      IPvWordMeans(h, g, v);
      OnlyVersion(h, f, g);
    case ByProbingResistance(m, v) =>
      assert ResistanceWord(m) in Words(h, f) && IPvWord(v) in Words(h, f);
      ResistanceWordMeans(h, g, m);
      IPvWordMeans(h, g, v);
    case ByTransport(m, v) =>
      assert TransportWord(m) in Words(h, f) && IPvWord(v) in Words(h, f);
      TransportWordMeans(h, g, m);
      IPvWordMeans(h, g, v);
      if g.ByNotBlockedIn? {
        assert BlockedWord(g.country) in Words(h, g);
        BlockedWordMeans(h, f, g.country);
      }
    case ByNotBlockedIn(c, m, v) =>
      assert BlockedWord(c) in Words(h, f) && IPvWord(v) in Words(h, f);
      BlockedWordMeans(h, g, c);
      IPvWordMeans(h, g, v);
      if m != "" {
        assert TransportWord(m) in Words(h, f);
        TransportWordMeans(h, g, m);
      } else if g.methodname != "" {
        assert TransportWord(g.methodname) in Words(h, g);
        TransportWordMeans(h, f, g.methodname);
      }
    case BySubring(k, i, n) =>
      assert SubringWord(h, k, i, n) in Words(h, f);
      SubringWordMeans(h, g, k, i, n);
  }

  lemma OnlyVersion(h: Hmacs, f: Filter, g: Filter)
    requires GoodTags(h) && Normal(h, f) && Normal(h, g) && f.ByIPv?
    requires forall w :: w in Words(h, g) ==> w in Words(h, f)
    ensures g.ByIPv?
  {
    match g
    case ByIPv(v) =>
    case ByProbingResistance(m, v) =>
      assert ResistanceWord(m) in Words(h, g);
      ResistanceWordMeans(h, f, m);
    case ByTransport(m, v) =>
      assert TransportWord(m) in Words(h, g);
      TransportWordMeans(h, f, m);
    case ByNotBlockedIn(c, m, v) =>
      assert BlockedWord(c) in Words(h, g);
      BlockedWordMeans(h, f, c);
    case BySubring(k, i, n) =>
      assert SubringWord(h, k, i, n) in Words(h, g);
      SubringWordMeans(h, f, k, i, n);
  }

  /** A conjunction can only take the name of one of its own filters. */
  lemma ConjunctionNames(h: Hmacs, fs: set<Filter>, f: Filter)
    requires GoodTags(h) && Coherent(h, fs) && Normal(h, f)
    requires forall w :: w in Words(h, f) <==> w in WordSet(h, fs)
    ensures f in fs
  {
    var v, m :| CoherentFor(h, fs, v, m);
    var ws := WordSet(h, fs);
    forall g | g in fs
      ensures forall w :: w in Words(h, g) ==> w in Words(h, f)
    {
      assert forall w :: w in Words(h, g) ==> w in ws;
    }
    match f
    case ByIPv(u) =>
      assert IPvWord(u) in ws;
      var g :| g in fs && IPvWord(u) in Words(h, g);
      OnlyVersion(h, f, g);
      IPvWordMeans(h, g, u);
    case ByProbingResistance(n, u) =>
      assert ResistanceWord(n) in ws && IPvWord(u) in ws;
      var g :| g in fs && ResistanceWord(n) in Words(h, g);
      ResistanceWordMeans(h, g, n);
      var g' :| g' in fs && IPvWord(u) in Words(h, g');
      IPvWordMeans(h, g', u);
    case ByTransport(n, u) =>
      assert TransportWord(n) in ws && IPvWord(u) in ws;
      var g :| g in fs && TransportWord(n) in Words(h, g);
      TransportWordMeans(h, g, n);
      var g' :| g' in fs && IPvWord(u) in Words(h, g');
      IPvWordMeans(h, g', u);
      if g.ByNotBlockedIn? {
        assert BlockedWord(g.country) in Words(h, g);
        BlockedWordMeans(h, f, g.country);
      }
    case ByNotBlockedIn(c, n, u) =>
      assert BlockedWord(c) in ws && IPvWord(u) in ws;
      var g :| g in fs && BlockedWord(c) in Words(h, g);
      BlockedWordMeans(h, g, c);
      var g' :| g' in fs && IPvWord(u) in Words(h, g');
      IPvWordMeans(h, g', u);
      if g.methodname != "" {
        assert TransportWord(g.methodname) in Words(h, g);
        TransportWordMeans(h, f, g.methodname);
      } else if n != "" {
        assert TransportWord(n) in ws;
        var t :| t in fs && TransportWord(n) in Words(h, t);
        TransportWordMeans(h, t, n);
      }
    case BySubring(k, i, n) =>
      assert SubringWord(h, k, i, n) in ws;
      var g :| g in fs && SubringWord(h, k, i, n) in Words(h, g);
      SubringWordMeans(h, g, k, i, n);
  }

  lemma WordSetHasNoSpace(h: Hmacs, fs: set<Filter>)
    requires GoodTags(h) && forall f :: f in fs ==> Normal(h, f)
    ensures forall w :: w in WordSet(h, fs) ==> ' ' !in w
    ensures fs != {} ==> WordSet(h, fs) != {}
  {
    forall w | w in WordSet(h, fs)
      ensures ' ' !in w
    {
      var f :| f in fs && w in Words(h, f);
      WordsHaveNoSpace(h, f);
    }
    if f :| f in fs {
      WordsHaveNoSpace(h, f);
      var w := Words(h, f)[0];
      assert w in Words(h, f);
      assert w in WordSet(h, fs);
    }
  }

  /** Different lists of words are joined to different names. */
  lemma JoinInjective(p: seq<string>, q: seq<string>)
    requires |p| > 0 && |q| > 0
    requires forall w :: w in p || w in q ==> ' ' !in w
    requires Join(p, ' ') == Join(q, ' ')
    ensures p == q
  {
    SplitOfJoin(p, ' ');
    SplitOfJoin(q, ' ');
  }

  /** A hit in the memo answers like the conjunction that was asked for. */
  lemma HitIsFaithful(h: Hmacs, fs: set<Filter>, order: seq<string>, c: Cached, b: Bridge)
    requires GoodTags(h) && Coherent(h, fs) && fs != {}
    requires Lists(order, WordSet(h, fs)) && GoodEntry(h, Join(order, ' '), c)
    ensures CachedPasses(h, c, b) == PassesAll(h, fs, b)
  {
    WordSetHasNoSpace(h, fs);
    assert order != [] by {
      var w :| w in WordSet(h, fs);
      assert w in order;
    }
    match c
    case One(g) =>
      WordsHaveNoSpace(h, g);
      JoinInjective(order, Words(h, g));
      SingletonsAreCoherent(h, g);
      assert WordSet(h, {g}) == WordSet(h, fs);
      CollisionsAreHarmless(h, {g}, fs, b);
      assert PassesAll(h, {g}, b) == Passes(h, g, b);
    case All(gs) =>
      WordSetHasNoSpace(h, gs);
      var order' :| Lists(order', WordSet(h, gs)) && Join(order, ' ') == Join(order', ' ');
      assert order' != [] by {
        var w :| w in WordSet(h, gs);
        assert w in order';
      }
      JoinInjective(order, order');
      assert WordSet(h, gs) == WordSet(h, fs);
      CollisionsAreHarmless(h, gs, fs, b);
  }

  /** A name that is not in the memo belongs to no factory filter when the members are in it. */
  lemma MissIsNoFactoryName(h: Hmacs, table: map<string, Cached>, fs: set<Filter>, order: seq<string>, f: Filter)
    requires GoodTags(h) && Coherent(h, fs) && fs != {}
    requires forall g :: g in fs ==> Name(h, g) in table
    requires Lists(order, WordSet(h, fs)) && Join(order, ' ') !in table && Normal(h, f)
    ensures Name(h, f) != Join(order, ' ')
  {
    if Name(h, f) == Join(order, ' ') {
      WordSetHasNoSpace(h, fs);
      assert order != [] by {
        var w :| w in WordSet(h, fs);
        assert w in order;
      }
      WordsHaveNoSpace(h, f);
      JoinInjective(order, Words(h, f));
      ConjunctionNames(h, fs, f);
    }
  }

  /** The module-level dictionary _cache with the factories that fill it. */
  class FilterCache {
    const h: Hmacs
    var table: map<string, Cached>

    ghost predicate Valid()
      reads this
    {
      GoodTags(h) && GoodTable(h, table) && Has(ByIPv(4)) && Has(ByIPv(6))
    }

    /** Whether a factory has made this filter. */
    predicate Has(f: Filter)
      reads this
    {
      Name(h, f) in table
    }

    /** Importing the module makes byIPv4 and byIPv6. */
    constructor (h: Hmacs)
      requires GoodTags(h)
      ensures Valid() && this.h == h
    {
      this.h := h;
      table := map[];
      new;
      assert Name(h, ByIPv(4)) == "ipv4" && Name(h, ByIPv(6)) == "ipv6";
      Remember(ByIPv(4));
      Remember(ByIPv(6));
    }

    /** The try-except that ends every factory. */
    method Remember(f: Filter)
      requires GoodTags(h) && GoodTable(h, table) && Normal(h, f)
      modifies this
      ensures GoodTable(h, table) && Has(f)
      ensures table == if Name(h, f) in old(table) then old(table) else old(table)[Name(h, f) := One(f)]
    {
      var name := Name(h, f);
      if name in table {
        assert table[name] == One(f);
        return;
      }
      forall g | Normal(h, g) && Name(h, g) == name
        ensures g == f
      {
        NameInjective(h, f, g);
      }
      table := table[name := One(f)];
    }

    method MakeByIPv(ipVersion: int) returns (f: Filter)
      requires Valid()
      modifies this
      ensures Valid() && Has(f) && Normal(h, f)
      ensures f == ByIPv(if ipVersion == 6 then 6 else 4)
      ensures table == old(table)
      ensures forall g :: old(Has(g)) ==> Has(g)
    {
      f := ByIPv(Version(ipVersion));
      assert Name(h, f) in table;
    }

    /** byProbingResistance; None stands for no method name. */
    method MakeByProbingResistance(methodname: Option<string>, ipVersion: int) returns (f: Filter)
      requires Valid() && (methodname.Some? ==> IsWord(methodname.value))
      modifies this
      ensures Valid() && Has(f) && Normal(h, f)
      ensures f == ByProbingResistance(
        if methodname.None? then "vanilla" else Lower(methodname.value), Version(ipVersion))
      ensures forall g :: old(Has(g)) ==> Has(g)
    {
      var m := if methodname.None? then "vanilla" else Lower(methodname.value);
      if methodname.Some? {
        LowerKeepsWords(methodname.value);
      }
      f := ByProbingResistance(m, Version(ipVersion));
      Remember(f);
    }

    /** byTransport; without a method name it is byIPv. */
    method MakeByTransport(methodname: string, ipVersion: int) returns (f: Filter)
      requires Valid() && IsWord(methodname)
      modifies this
      ensures Valid() && Has(f) && Normal(h, f)
      ensures f == if methodname == "" then ByIPv(Version(ipVersion))
                   else ByTransport(Lower(methodname), Version(ipVersion))
      ensures forall g :: old(Has(g)) ==> Has(g)
    {
      if methodname == "" {
        f := MakeByIPv(ipVersion);
        return;
      }
      LowerKeepsWords(methodname);
      f := ByTransport(Lower(methodname), Version(ipVersion));
      Remember(f);
    }

    /** byNotBlockedIn; without a country it is byTransport. */
    method MakeByNotBlockedIn(country: string, methodname: string, ipVersion: int) returns (f: Filter)
      requires Valid() && IsWord(country) && IsWord(methodname)
      modifies this
      ensures Valid() && Has(f) && Normal(h, f)
      ensures country != "" ==>
        f == ByNotBlockedIn(Lower(country), Lower(methodname), Version(ipVersion))
      ensures country == "" ==>
        f == if methodname == "" then ByIPv(Version(ipVersion))
             else ByTransport(Lower(methodname), Version(ipVersion))
      ensures forall g :: old(Has(g)) ==> Has(g)
    {
      if country == "" {
        f := MakeByTransport(methodname, ipVersion);
        return;
      }
      LowerKeepsWords(methodname);
      LowerKeepsWords(country);
      f := ByNotBlockedIn(Lower(country), Lower(methodname), Version(ipVersion));
      Remember(f);
    }

    method MakeBySubring(key: KeyId, number: nat, total: nat) returns (f: Filter)
      requires Valid() && key in h.keys
      modifies this
      ensures Valid() && Has(f) && Normal(h, f)
      ensures f == BySubring(key, number, total)
      ensures forall g :: old(Has(g)) ==> Has(g)
    {
      f := BySubring(key, number, total);
      Remember(f);
    }

    /** byFilters: the filter it returns, new or remembered under a name that other filters may
        share, tests the plain conjunction. The order of the words in the name is arbitrary. */
    method ByFilters(fs: set<Filter>) returns (c: Cached)
      requires Valid() && fs != {} && Coherent(h, fs)
      requires forall f :: f in fs ==> Has(f)
      modifies this
      ensures Valid()
      ensures forall b :: CachedPasses(h, c, b) == PassesAll(h, fs, b)
      ensures forall g :: old(Has(g)) ==> Has(g)
    {
      var words := {};
      var todo := fs;
      while todo != {}
        invariant todo <= fs
        invariant words == WordSet(h, fs - todo)
        invariant table == old(table)
        decreases todo
      {
        var f :| f in todo;
        NameSplits(h, f);
        words := words + set w | w in Split(Name(h, f), ' ');
        todo := todo - {f};
      }
      assert fs - {} == fs;
      var order := SomeOrder(words);
      var name := Join(order, ' ');
      if name in table {
        c := table[name];
        assert GoodEntry(h, name, c);
        hide GoodEntry;
        forall b
          ensures CachedPasses(h, c, b) == PassesAll(h, fs, b)
        {
          HitIsFaithful(h, fs, order, c, b);
        }
        return;
      }
      forall f | Normal(h, f)
        ensures Name(h, f) != name
      {
        MissIsNoFactoryName(h, table, fs, order, f);
      }
      c := All(fs);
      table := table[name := c];
    }
  }

  /** Unknown IP versions become 4. */
  function Version(v: int): int { if v == 6 then 6 else 4 }

  lemma LowerKeepsWords(s: string)
    ensures IsWord(s) ==> IsWord(Lower(s))
  {
  }

  /** The arbitrary order in which Python iterates over a set of words. */
  method SomeOrder(words: set<string>) returns (order: seq<string>)
    ensures Lists(order, words)
  {
    order := [];
    var todo := words;
    while todo != {}
      invariant todo <= words
      invariant Lists(order, words - todo)
      decreases todo
    {
      var w :| w in todo;
      order := order + [w];
      todo := todo - {w};
    }
  }
}
