/**
  The location resolver of `DataPreProcessor.geocode` / `geocode_helper` and
  the ISO normaliser `country_iso`, as functions of the cache they read.

  The three lookups the resolver consults are oracles: the geonamescache
  country table, its city search and pycountry's fuzzy search. Only the
  order in which they are asked and what is done with their answers is
  modelled. The codes that come back mix systems as in the source:
  geonamescache gives ISO 3166-1 alpha-2 ("US"), pycountry and the seeded
  cache give alpha-3 ("USA").
 */
module Geocoding {
  import opened Wrappers
  import opened Text

  datatype Gazetteer = Gazetteer(
    /** `gc.get_countries()`: key -> the entry's "iso" field. */
    countries: map<string, string>,
    /** `gc.get_cities_by_name(name)`: the "countrycode" of each hit, in the order returned. */
    cities: string -> seq<string>,
    /** `pycountry.countries.search_fuzzy(name)`: the "alpha_3" of each hit, best first; empty where it raises LookupError. */
    fuzzy: string -> seq<string>)

  /** `self.cache`: location -> code, where `None` records a failed resolution. */
  type Cache = map<string, Option<string>>

  /** The cache as the constructor seeds it. */
  const Seed: Cache := map[
    "New York" := Some("USA"),
    "England" := Some("GBR"),
    "NYC" := Some("USA"),
    "Boston" := Some("USA")
  ]

  /** `hits[0]`, or `None` where indexing an empty result raises. */
  function FirstHit(hits: seq<string>): Option<string>
  {
    if |hits| == 0 then None else Some(hits[0])
  }

  /** `geocode_helper`: the country table's entry, else the first city's country code. */
  function Helper(g: Gazetteer, name: string): Option<string>
  {
    if name in g.countries then Some(g.countries[name]) else FirstHit(g.cities(name))
  }

  /** `location == "nan" or len(location.split(" ")) > 3`. */
  predicate Rejected(location: string)
  {
    location == "nan" || |Split(location, ' ')| > 3
  }

  /** `loc`: the text before the first comma, stripped. */
  function Head(location: string): string
  {
    Strip(UpTo(location, ','))
  }

  /** `loc2`: the text after the last comma, stripped. */
  function Tail(location: string): string
  {
    Strip(AfterLast(location, ','))
  }

  /** `loc` and `loc2` are the first and the last piece of `location.split(",")`, stripped. */
  lemma HeadTailArePieces(location: string)
    ensures Head(location) == Strip(Split(location, ',')[0])
    ensures Tail(location) == Strip(Last(Split(location, ',')))
  {
    SplitFirst(location, ',');
    SplitLast(location, ',');
  }

  /** What `geocode` reads off the location text before it consults anything. */
  datatype Parsed = Parsed(rejected: bool, head: string, tail: string)

  function Parse(location: string): Parsed
  {
    Parsed(Rejected(location), Head(location), Tail(location))
  }

  /** The lookup chain run on a cache miss, on the first and the last segment. */
  function Lookup(g: Gazetteer, p: Parsed): Option<string>
  {
    var first := Helper(g, p.head);
    if first.Some? then first
    else
      var last := Helper(g, p.tail);
      if last.Some? then last
      else FirstHit(g.fuzzy(p.tail))
  }

  /** What one call of `geocode` returns, and the cache it leaves behind. */
  datatype Resolution = Resolution(code: Option<string>, cache: Cache)

  /** The body of `geocode` once the location text has been taken apart into `p`. */
  function Answer(g: Gazetteer, cache: Cache, location: string, p: Parsed): Resolution
  {
    if p.rejected then Resolution(None, cache)
    else if location in cache then Resolution(cache[location], cache)
    else if p.head in cache then Resolution(cache[p.head], cache)
    else
      match Lookup(g, p)
      case None => Resolution(None, cache[location := None])
      case Some(c) => Resolution(Some(c), cache[location := Some(c)][p.head := Some(c)])
  }

  /** One call of `geocode` on `location` against `cache` (without `lru_cache`, which the class adds). */
  function Resolve(g: Gazetteer, cache: Cache, location: string): Resolution
  {
    Answer(g, cache, location, Parse(location))
  }

  /** `big` holds every entry of `small`, unchanged. */
  ghost predicate Extends(small: Cache, big: Cache)
  {
    forall k {:trigger Present(small, k)} :: Present(small, k) ==> k in big && big[k] == small[k]
  }

  /**
    `key` has an entry in `m`. The quantifiers over cache keys fire on this
    name only, so that they are used where a proof asks for a key and not
    on every key the solver comes across.
   */
  ghost predicate Present(m: Cache, key: string)
  {
    key in m
  }

  lemma ExtendsTrans(a: Cache, b: Cache, c: Cache)
    requires Extends(a, b) && Extends(b, c)
    ensures Extends(a, c)
  {
    forall k | Present(a, k) ensures k in c && c[k] == a[k] {
      assert Present(b, k);
    }
  }

  /** A call would be answered without a lookup and without a write. */
  ghost predicate SettledBy(cache: Cache, location: string, p: Parsed)
  {
    p.rejected || location in cache || p.head in cache
  }

  ghost predicate Settled(cache: Cache, location: string)
  {
    SettledBy(cache, location, Parse(location))
  }

  // ---------------------------------------------------------------------
  // Reject step

  /** The reject test is "nan" or at least three space characters (double spaces count twice). */
  lemma RejectedIff(location: string)
    ensures Rejected(location) <==> location == "nan" || Count(location, ' ') >= 3
  {
  }

  /**
    A rejected location gives `None` whatever the cache and the gazetteer
    hold, and leaves the cache as it was: no read, no write, no lookup.
   */
  lemma RejectedFirst(g1: Gazetteer, g2: Gazetteer, c1: Cache, c2: Cache, location: string)
    requires Rejected(location)
    ensures Resolve(g1, c1, location) == Resolution(None, c1)
    ensures Resolve(g1, c1, location).code == Resolve(g2, c2, location).code
  {
  }

  /** A free-form location of four words is turned down before anything else. */
  lemma FourWordsRejected(g: Gazetteer, cache: Cache, w1: string, w2: string, w3: string, w4: string)
    requires ' ' !in w1 && ' ' !in w2 && ' ' !in w3 && ' ' !in w4
    ensures Resolve(g, cache, w1 + " " + w2 + " " + w3 + " " + w4) == Resolution(None, cache)
  {
    var location := w1 + " " + w2 + " " + w3 + " " + w4;
    CountAbsent(w1, ' ');
    CountAbsent(w2, ' ');
    CountAbsent(w3, ' ');
    CountAbsent(w4, ' ');
    CountAppend(w1 + " " + w2 + " " + w3 + " ", w4, ' ');
    CountAppend(w1 + " " + w2 + " " + w3, " ", ' ');
    CountAppend(w1 + " " + w2 + " ", w3, ' ');
    CountAppend(w1 + " " + w2, " ", ' ');
    CountAppend(w1 + " ", w2, ' ');
    CountAppend(w1, " ", ' ');
    assert Count(location, ' ') == 3;
    RejectedFirst(g, g, cache, cache, location);
  }

  // ---------------------------------------------------------------------
  // Cache step

  lemma AnswerFromCache(g1: Gazetteer, g2: Gazetteer, cache: Cache, location: string, p: Parsed)
    requires !p.rejected
    requires location in cache || p.head in cache
    ensures Answer(g1, cache, location, p).cache == cache
    ensures Answer(g1, cache, location, p) == Answer(g2, cache, location, p)
    ensures location in cache ==> Answer(g1, cache, location, p).code == cache[location]
    ensures location !in cache ==> Answer(g1, cache, location, p).code == cache[p.head]
  {
  }

  /**
    An entry for the full string answers, before one for the pre-comma
    token and before any lookup; an entry for the token answers next.
    Neither writes, and the gazetteer is not consulted.
   */
  lemma CacheAnswers(g1: Gazetteer, g2: Gazetteer, cache: Cache, location: string)
    requires !Rejected(location)
    requires location in cache || Head(location) in cache
    ensures Resolve(g1, cache, location).cache == cache
    ensures Resolve(g1, cache, location) == Resolve(g2, cache, location)
    ensures location in cache ==> Resolve(g1, cache, location).code == cache[location]
    ensures location !in cache ==> Resolve(g1, cache, location).code == cache[Head(location)]
  {
    AnswerFromCache(g1, g2, cache, location, Parse(location));
  }

  /** The pre-comma token is comma-free and stripped, so taking it again changes nothing. */
  lemma HeadIdempotent(location: string)
    ensures Head(Head(location)) == Head(location)
  {
    UpToFree(location, ',');
    StripKeepsOut(UpTo(location, ','), ',');
    UpToWithout(Head(location), ',');
    StripIdempotent(UpTo(location, ','));
  }

  /** Without a comma the first and the last segment are the same text. */
  lemma NoCommaOneSegment(location: string)
    requires ',' !in location
    ensures Head(location) == Tail(location) == Strip(location)
  {
    UpToWithout(location, ',');
  }

  /** A name with no comma, fewer than three spaces and no surrounding blanks is its own token. */
  predicate Plain(name: string)
  {
    name != "nan" && ',' !in name && Count(name, ' ') < 3 && Strip(name) == name
  }

  lemma PlainName(name: string)
    requires Plain(name)
    ensures Parse(name) == Parsed(false, name, name)
  {
    NoCommaOneSegment(name);
  }

  /** Every seeded entry answers its own name, with no lookup and no write. */
  lemma SeededNames(g: Gazetteer, name: string)
    requires name in Seed
    ensures Resolve(g, Seed, name) == Resolution(Seed[name], Seed)
    ensures Seed[name] == Some("USA") || Seed[name] == Some("GBR")
  {
    if name == "New York" {
      NewYorkKept();
    } else {
      assert name in {"NYC", "Boston", "England"};
      SingleWordKept(name);
    }
    SeedHit(g, name);
  }

  /**
    A seeded name also answers through the pre-comma token of a longer
    location such as "NYC, NY": no seeded key holds a comma, so the full
    text always misses and the token hits.
   */
  lemma SeededToken(g: Gazetteer, city: string, rest: string)
    requires city in Seed && !Rejected(city + "," + rest)
    ensures Resolve(g, Seed, city + "," + rest) == Resolution(Seed[city], Seed)
  {
    var location := city + "," + rest;
    SeedKeysPlain(city);
    assert city + [','] + rest == location;
    UpToFirst(city, ',', rest);
    assert ',' in location;
    assert location !in Seed by { SeedKeysPlainAll(); }
    AnswerFromCache(g, g, Seed, location, Parse(location));
  }

  lemma SeedKeysPlainAll()
    ensures forall k :: k in Seed ==> ',' !in k
  {
    forall k | k in Seed ensures ',' !in k { SeedKeysPlain(k); }
  }

  /** The seeded keys hold no comma and no surrounding blanks. */
  lemma SeedKeysPlain(city: string)
    requires city in Seed
    ensures ',' !in city && Strip(city) == city
  {
    assert city == "New York" || city == "England" || city == "NYC" || city == "Boston";
    if city == "New York" {
      LettersPlain("New York");
    } else if city == "England" {
      LettersPlain("England");
    } else if city == "NYC" {
      LettersPlain("NYC");
    } else {
      LettersPlain("Boston");
    }
  }

  /** Letters with single inner spaces: no comma, nothing to strip. */
  lemma LettersPlain(s: string)
    requires s != [] && s[0] != ' ' && s[|s| - 1] != ' '
    requires forall i :: 0 <= i < |s| ==> 'A' <= s[i] <= 'Z' || 'a' <= s[i] <= 'z' || s[i] == ' '
    ensures ',' !in s && Strip(s) == s
  {
    assert s[0] in s && s[|s| - 1] in s;
    StripUnpadded(s);
  }

  lemma NewYorkKept()
    ensures !Rejected("New York")
  {
    assert Count("New York", ' ') == 1;
  }

  lemma SingleWordKept(name: string)
    requires name == "NYC" || name == "Boston" || name == "England"
    ensures !Rejected(name)
  {
    CountAbsent(name, ' ');
  }

  lemma SeedHit(g: Gazetteer, name: string)
    requires name in Seed && !Rejected(name)
    ensures Resolve(g, Seed, name) == Resolution(Seed[name], Seed)
  {
  }

  // ---------------------------------------------------------------------
  // Lookup chain

  /**
    The fallback order, in terms of the three oracles: country table then
    city search on the first segment, the same on the last segment, then the
    best fuzzy hit for the last segment; `None` only when all of them miss.
   */
  lemma LookupOrder(g: Gazetteer, p: Parsed)
    ensures var h, t := p.head, p.tail;
      && (h in g.countries ==> Lookup(g, p) == Some(g.countries[h]))
      && (h !in g.countries && |g.cities(h)| > 0 ==> Lookup(g, p) == Some(g.cities(h)[0]))
      && (h !in g.countries && |g.cities(h)| == 0 && t in g.countries ==> Lookup(g, p) == Some(g.countries[t]))
      && (h !in g.countries && |g.cities(h)| == 0 && t !in g.countries && |g.cities(t)| > 0 ==>
            Lookup(g, p) == Some(g.cities(t)[0]))
      && (h !in g.countries && |g.cities(h)| == 0 && t !in g.countries && |g.cities(t)| == 0 ==>
            Lookup(g, p) == FirstHit(g.fuzzy(t)))
      && (Lookup(g, p).None? <==>
            h !in g.countries && |g.cities(h)| == 0 && t !in g.countries && |g.cities(t)| == 0 && |g.fuzzy(t)| == 0)
  {
  }

  // ---------------------------------------------------------------------
  // Cache writes

  /**
    Writes go only to keys that were absent, and only to the full string and
    the pre-comma token. On success both map to the returned code; when the
    fuzzy search also fails only the full string is written, as `None`.
   */
  lemma AnswerWrites(g: Gazetteer, cache: Cache, location: string, p: Parsed)
    ensures var r := Answer(g, cache, location, p);
      && Extends(cache, r.cache)
      && r.cache.Keys <= cache.Keys + {location, p.head}
      && (r.cache != cache <==> !SettledBy(cache, location, p))
      && (!SettledBy(cache, location, p) && r.code.Some? ==>
            r.cache[location] == r.code && r.cache[p.head] == r.code)
      && (!SettledBy(cache, location, p) && r.code.None? ==> r.cache == cache[location := None])
  {
    var r := Answer(g, cache, location, p);
    if !SettledBy(cache, location, p) {
      assert location in r.cache && location !in cache;
    }
  }

  lemma CacheWrites(g: Gazetteer, cache: Cache, location: string)
    ensures var r := Resolve(g, cache, location);
      && Extends(cache, r.cache)
      && r.cache.Keys <= cache.Keys + {location, Head(location)}
      && (r.cache != cache <==> !Settled(cache, location))
      && (!Settled(cache, location) && r.code.Some? ==>
            r.cache[location] == r.code && r.cache[Head(location)] == r.code)
      && (!Settled(cache, location) && r.code.None? ==> r.cache == cache[location := None])
  {
    AnswerWrites(g, cache, location, Parse(location));
  }

  lemma AnswerTwice(g: Gazetteer, cache: Cache, location: string, p: Parsed)
    ensures SettledBy(Answer(g, cache, location, p).cache, location, p)
    ensures Answer(g, Answer(g, cache, location, p).cache, location, p) == Answer(g, cache, location, p)
  {
  }

  /** After one call the location is settled, and a second call returns the same code and writes nothing. */
  lemma ResolveTwice(g: Gazetteer, cache: Cache, location: string)
    ensures Settled(Resolve(g, cache, location).cache, location)
    ensures Resolve(g, Resolve(g, cache, location).cache, location) == Resolve(g, cache, location)
  {
    AnswerTwice(g, cache, location, Parse(location));
  }

  lemma AnswerStable(g: Gazetteer, small: Cache, big: Cache, location: string, p: Parsed)
    requires SettledBy(small, location, p) && Extends(small, big)
    requires !p.rejected && location !in small ==> location !in big
    ensures SettledBy(big, location, p)
    ensures Answer(g, big, location, p) == Resolution(Answer(g, small, location, p).code, big)
  {
    assert location in small ==> Present(small, location);
    assert p.head in small ==> Present(small, p.head);
  }

  /**
    A settled location keeps its answer when the cache grows, provided its
    own key is not added behind the pre-comma entry that answered it.
   */
  lemma SettledStable(g: Gazetteer, small: Cache, big: Cache, location: string)
    requires Settled(small, location) && Extends(small, big)
    requires !Rejected(location) && location !in small ==> location !in big
    ensures Settled(big, location)
    ensures Resolve(g, big, location) == Resolution(Resolve(g, small, location).code, big)
  {
    AnswerStable(g, small, big, location, Parse(location));
  }

  /**
    What `lru_cache` remembers for `geocode` agrees with the cache: for every
    remembered location the cache alone would give the same answer and
    write nothing (by `CacheWrites`, it is settled).
   */
  ghost predicate MemoCoherent(g: Gazetteer, cache: Cache, memo: Cache)
  {
    forall location {:trigger Present(memo, location)} :: Present(memo, location) ==>
      Resolve(g, cache, location) == Resolution(memo[location], cache)
  }

  /** A remembered code is the code the cache gives now. */
  lemma MemoAnswers(g: Gazetteer, cache: Cache, memo: Cache, location: string)
    requires MemoCoherent(g, cache, memo) && location in memo
    ensures memo[location] == Resolve(g, cache, location).code
  {
    assert Present(memo, location);
  }

  /**
    A call that misses `lru_cache` runs the body, which may write to the
    cache; the remembered answers for every other location still agree with
    the grown cache, and the new answer joins them.
   */
  lemma {:induction false} CoherenceKept(g: Gazetteer, cache: Cache, memo: Cache, location: string)
    requires MemoCoherent(g, cache, memo)
    ensures var r := Resolve(g, cache, location);
      MemoCoherent(g, r.cache, memo[location := r.code])
  {
    var r := Resolve(g, cache, location);
    var memo' := memo[location := r.code];
    forall other | other in memo'
      ensures Resolve(g, r.cache, other) == Resolution(memo'[other], r.cache)
    {
      assert Present(memo', other);
      if other == location {
        ResolveTwice(g, cache, location);
      } else {
        assert Present(memo, other);
        CacheWrites(g, cache, other);
        OtherKept(g, cache, location, other);
      }
    }
  }

  /**
    One call of `geocode` under `lru_cache`: a remembered location is
    answered as remembered and changes nothing; in every case the cache only
    gains entries, and the new answer joins the remembered ones coherently.
   */
  lemma MemoStep(g: Gazetteer, cache: Cache, memo: Cache, location: string)
    requires MemoCoherent(g, cache, memo)
    ensures var r := Resolve(g, cache, location);
      && MemoCoherent(g, r.cache, memo[location := r.code])
      && Extends(cache, r.cache)
      && (location in memo ==> r == Resolution(memo[location], cache))
  {
    CoherenceKept(g, cache, memo, location);
    CacheWrites(g, cache, location);
    if location in memo {
      assert Present(memo, location);
    }
  }

  /**
    A location already settled before a call on another one keeps its
    answer, as long as it is its own pre-comma token whenever the call may
    write it as one.
   */
  lemma AnswerOtherKept(g: Gazetteer, cache: Cache, location: string, p: Parsed, other: string, q: Parsed)
    requires SettledBy(cache, other, q) && other != location
    requires other == p.head ==> q.head == other
    ensures var r := Answer(g, cache, location, p);
      Answer(g, r.cache, other, q) == Resolution(Answer(g, cache, other, q).code, r.cache)
  {
    var r := Answer(g, cache, location, p);
    AnswerWrites(g, cache, location, p);
    AnswerStable(g, cache, r.cache, other, q);
  }

  lemma OtherKept(g: Gazetteer, cache: Cache, location: string, other: string)
    requires Settled(cache, other) && other != location
    ensures var r := Resolve(g, cache, location);
      Resolve(g, r.cache, other) == Resolution(Resolve(g, cache, other).code, r.cache)
  {
    HeadIdempotent(location);
    AnswerOtherKept(g, cache, location, Parse(location), other, Parse(other));
  }

  // ---------------------------------------------------------------------
  // ISO normaliser

  /** `country_iso`: "xk" first, then "nan"/None, then the best fuzzy hit's alpha-3 code. */
  function CountryIso(g: Gazetteer, country: Option<string>): Option<string>
  {
    if country == Some("xk") then Some("XKX")
    else if country == None || country == Some("nan") then None
    else FirstHit(g.fuzzy(country.value))
  }

  /**
    "xk" gives "XKX" whatever the fuzzy search would say; the check is exact,
    so "XK" goes to the fuzzy search like any other name.
   */
  lemma KosovoFirst(g: Gazetteer)
    ensures CountryIso(g, Some("xk")) == Some("XKX")
    ensures CountryIso(g, Some("XK")) == FirstHit(g.fuzzy("XK"))
  {
    assert "XK" != "xk" by { assert "XK"[0] != "xk"[0]; }
    assert "XK" != "nan";
  }

  /** The normaliser answers `None` exactly for None, "nan" and a fuzzy miss (never for "xk"). */
  lemma CountryIsoNoneIff(g: Gazetteer, country: Option<string>)
    ensures CountryIso(g, country).None? <==>
      country != Some("xk") && (country == None || country == Some("nan") || |g.fuzzy(country.value)| == 0)
    ensures CountryIso(g, country).Some? ==>
      CountryIso(g, country) == Some("XKX") || CountryIso(g, country) == Some(g.fuzzy(country.value)[0])
  {
  }

  /**
    A location the resolver turns down ends with no ISO code either. The
    converse fails: a resolved code that the fuzzy search does not know
    leaves the ISO code absent next to a present country code.
   */
  lemma NoCountryNoIso(g: Gazetteer, cache: Cache, location: string)
    requires Resolve(g, cache, location).code == None
    ensures CountryIso(g, Resolve(g, cache, location).code) == None
  {
  }

  /**
    A country code can come back without an ISO code: a plain name the
    country table knows resolves to the table's code, and when the fuzzy
    search does not know that code, `country_iso` gives `None`.
   */
  lemma CountryWithoutIso(g: Gazetteer, cache: Cache, name: string)
    requires Plain(name) && name !in cache && name in g.countries
    requires g.countries[name] != "xk" && g.countries[name] != "nan" && |g.fuzzy(g.countries[name])| == 0
    ensures Resolve(g, cache, name) == Resolution(Some(g.countries[name]), cache[name := Some(g.countries[name])])
    ensures CountryIso(g, Resolve(g, cache, name).code) == None
  {
    ResolveFromTable(g, cache, name);
    UnknownCodeNoIso(g, g.countries[name]);
  }

  /** A code other than "xk" and "nan" that the fuzzy search does not know has no ISO code. */
  lemma UnknownCodeNoIso(g: Gazetteer, code: string)
    requires code != "xk" && code != "nan" && |g.fuzzy(code)| == 0
    ensures CountryIso(g, Some(code)) == None
  {
  }

  /** A plain name the country table knows resolves to the table's code, written once under its own key. */
  lemma ResolveFromTable(g: Gazetteer, cache: Cache, name: string)
    requires Plain(name) && name !in cache && name in g.countries
    ensures Resolve(g, cache, name) == Resolution(Some(g.countries[name]), cache[name := Some(g.countries[name])])
  {
    PlainName(name);
    AnswerFromTable(g, cache, name, Parse(name));
    UpdateTwice(cache, name, Some(g.countries[name]));
  }

  /** A first segment the country table knows is answered from it, and both keys are written. */
  lemma AnswerFromTable(g: Gazetteer, cache: Cache, location: string, p: Parsed)
    requires !p.rejected && location !in cache && p.head !in cache && p.head in g.countries
    ensures Answer(g, cache, location, p) ==
      Resolution(Some(g.countries[p.head]), cache[location := Some(g.countries[p.head])][p.head := Some(g.countries[p.head])])
  {
  }

  lemma UpdateTwice(m: Cache, k: string, v: Option<string>)
    ensures m[k := v][k := v] == m[k := v]
  {
  }
}
