/**
  `DataPreProcessor` (src/data_pre_processor.py): the frame it cleans, the
  location cache it grows while geocoding, and the pipeline steps that
  change the frame in place.

  `geocode` carries `@lru_cache`; the class keeps what that decorator
  remembers as the field `memo`, so a repeated location is answered from
  `memo` without running the body, as in the source.
 */
module PreProcessor {
  import opened Wrappers
  import opened Text
  import opened Frames
  import opened Geocoding

  /** `astype(str)` of a column: a missing value becomes the text "nan". */
  function Stringified(cells: seq<Cell>): (r: seq<Cell>)
    ensures |r| == |cells|
    ensures forall i :: 0 <= i < |r| ==> r[i].Some?
    ensures forall i :: 0 <= i < |r| && cells[i].Some? ==> r[i] == cells[i]
    ensures forall i :: 0 <= i < |r| && cells[i].None? ==> r[i] == Some("nan")
  {
    seq(|cells|, i requires 0 <= i < |cells| => Some(CellText(cells[i])))
  }

  /** Turning a column into text a second time changes nothing. */
  lemma StringifiedIdempotent(cells: seq<Cell>)
    ensures Stringified(Stringified(cells)) == Stringified(cells)
  {
  }

  /** The `ISO` column: `country_iso` of every `country` cell. */
  function IsoColumn(g: Gazetteer, countries: seq<Cell>): (r: seq<Cell>)
    ensures |r| == |countries|
  {
    seq(|countries|, i requires 0 <= i < |countries| => CountryIso(g, countries[i]))
  }

  /**
    The cache after geocoding the text of each cell in row order, each
    call starting from the cache the previous one left. It only gains
    entries, and only under the rows' texts and their pre-comma tokens.
   */
  function ResolveRows(g: Gazetteer, cache: Cache, rows: seq<Cell>): (r: Cache)
    ensures Extends(cache, r)
    ensures r.Keys <= cache.Keys + RowKeys(rows)
  {
    if rows == [] then cache
    else
      var before := ResolveRows(g, cache, rows[..|rows| - 1]);
      var text := CellText(rows[|rows| - 1]);
      CacheWrites(g, before, text);
      ExtendsTrans(cache, before, Resolve(g, before, text).cache);
      Resolve(g, before, text).cache
  }

  /** The texts of the rows and their pre-comma tokens: the keys geocoding them may write. */
  function RowKeys(rows: seq<Cell>): set<string>
  {
    if rows == [] then {}
    else RowKeys(rows[..|rows| - 1]) + {CellText(rows[|rows| - 1]), Head(CellText(rows[|rows| - 1]))}
  }

  /** Geocoding one more row continues from the cache the earlier rows left. */
  lemma ResolveRowsStep(g: Gazetteer, cache: Cache, rows: seq<Cell>, i: nat)
    requires i < |rows|
    ensures ResolveRows(g, cache, rows[..i + 1]) == Resolve(g, ResolveRows(g, cache, rows[..i]), CellText(rows[i])).cache
  {
    var s := rows[..i + 1];
    assert s != [] && s[..|s| - 1] == rows[..i] && s[|s| - 1] == rows[i];
    ResolveRowsLast(g, cache, s);
  }

  lemma ResolveRowsLast(g: Gazetteer, cache: Cache, rows: seq<Cell>)
    requires rows != []
    ensures ResolveRows(g, cache, rows) == Resolve(g, ResolveRows(g, cache, rows[..|rows| - 1]), CellText(rows[|rows| - 1])).cache
  {
  }

  /**
    `__init__` first reads the file and draws `sample(20000)` rows without
    replacement, which fails on a shorter file; the sample is then replaced
    by a second full read.
   */
  const SampleSize: nat := 20000

  const OutputDir: string := "../data/tweets_processed/"
  const OutputSuffix: string := "_PROCESSED.csv"

  /** The file `back_to_csv` writes: the base name with every ".csv" removed, under the output folder. */
  function OutputName(route: string): (name: string)
    ensures HasPrefix(name, OutputDir)
    ensures |name| >= |OutputDir| + |OutputSuffix|
    ensures name[|name| - |OutputSuffix|..] == OutputSuffix
    ensures |name| <= |OutputDir| + |Basename(route)| + |OutputSuffix|
  {
    var stem := RemoveAll(Basename(route), ".csv");
    assert (OutputDir + stem + OutputSuffix)[..|OutputDir|] == OutputDir;
    OutputDir + stem + OutputSuffix
  }

  /**
    `replace` removes every ".csv", not just a trailing one: the stem up to
    the first ".csv" is kept and the scan goes on behind it. The input's
    folders do not matter.
   */
  lemma OutputNameDropsEveryCsv(dir: string, stem: string, rest: string)
    requires '/' !in stem && '/' !in rest && Free(stem, ".csv")
    ensures OutputName(dir + "/" + stem + ".csv" + rest) == OutputDir + stem + RemoveAll(rest, ".csv") + OutputSuffix
  {
    var name := stem + ".csv" + rest;
    assert '/' !in name by {
      assert '/' !in ".csv";
    }
    assert Basename(dir + "/" + stem + ".csv" + rest) == name by {
      Reassoc(dir + "/", stem, ".csv");
      Reassoc(dir + "/", stem + ".csv", rest);
      BasenameAfterSlash(dir, name);
    }
    assert RemoveAll(name, ".csv") == stem + RemoveAll(rest, ".csv") by {
      RemoveCsvAfterFree(stem, rest);
    }
    Reassoc(OutputDir, stem, RemoveAll(rest, ".csv"));
  }

  /** The usual input, a ".csv" file whose stem holds no ".csv", is named after its stem. */
  lemma OutputNameOfCsv(dir: string, stem: string)
    requires '/' !in stem && Free(stem, ".csv")
    ensures OutputName(dir + "/" + stem + ".csv") == OutputDir + stem + OutputSuffix
  {
    OutputNameDropsEveryCsv(dir, stem, []);
    var path := dir + "/" + stem + ".csv";
    assert path + [] == path;
    assert stem + [] == stem;
  }

  class DataPreProcessor {
    /** `self.data`: the frame is one object, changed in place by the steps below. */
    const data: Frame
    /** `self.route`: the path of the CSV file the frame was read from. */
    const route: string
    /** `self.countries`, `self.gc` and `self.pc`. */
    const gaz: Gazetteer
    /** `self.cache`. */
    var cache: Cache
    /** What `lru_cache` on `geocode` remembers: location -> returned code. */
    var memo: Cache

    ghost predicate Valid()
      reads this, data
    {
      && data.Valid()
      && "location" in data.columns
      && MemoCoherent(gaz, cache, memo)
    }

    /**
      `__init__` after the CSV has been read into `frame`: the cache is
      seeded, nothing is remembered yet, and the `location` column is
      turned into text. Without a `location` column pandas raises KeyError,
      and a file of fewer than `SampleSize` rows fails at the discarded sample.
     */
    constructor (frame: Frame, route: string, gaz: Gazetteer)
      requires frame.Valid() && "location" in frame.columns
      requires frame.height >= SampleSize
      modifies frame
      ensures Valid()
      ensures data == frame && this.route == route && this.gaz == gaz
      ensures cache == Seed && memo == map[]
      ensures data.columns == old(frame.columns) && data.height == old(frame.height)
      ensures data.cells == old(frame.cells)["location" := Stringified(old(frame.cells)["location"])]
    {
      data := frame;
      this.route := route;
      this.gaz := gaz;
      cache := Seed;
      memo := map[];
      new;
      frame.Store("location", Stringified(frame.cells["location"]));
    }

    /**
      `geocode(location)` under `lru_cache`. A remembered location is
      answered from `memo`; otherwise the body runs. Either way the answer
      is what the cache held before the call gives, the cache only gains
      entries, and what `memo` remembers never changes.
     */
    method Geocode(location: string) returns (code: Option<string>)
      requires Valid()
      modifies this`cache, this`memo
      ensures Valid()
      ensures code == Resolve(gaz, old(cache), location).code
      ensures cache == Resolve(gaz, old(cache), location).cache
      ensures memo == old(memo)[location := code]
      ensures location in old(memo) ==> code == old(memo)[location]
      ensures Extends(old(cache), cache)
    {
      MemoStep(gaz, cache, memo, location);
      if location in memo {
        code := memo[location];
        return;
      }
      code := GeocodeBody(location, Parse(location));
      memo := memo[location := code];
    }

    /**
      The body of `geocode`, given what it reads off the location text:
      whether it is turned down, the stripped text before the first comma
      (`loc`) and after the last one (`loc2`). Reject, then the cache for the
      full text and for `loc`, then the lookup chain; on success both the
      full text and `loc` are written, on a last miss only the full text.
     */
    method GeocodeBody(location: string, p: Parsed) returns (code: Option<string>)
      modifies this`cache
      ensures Resolution(code, cache) == Answer(gaz, old(cache), location, p)
    {
      if p.rejected {
        return None;
      }
      var loc := p.head;
      if location in cache {
        return cache[location];
      }
      if loc in cache {
        return cache[loc];
      }
      var loc2 := p.tail;
      code := Helper(gaz, loc);
      if code == None {
        code := Helper(gaz, loc2);
      }
      if code == None {
        var hits := gaz.fuzzy(loc2);
        if |hits| == 0 {
          cache := cache[location := None];
          return None;
        }
        code := Some(hits[0]);
      }
      cache := cache[location := code];
      cache := cache[loc := code];
    }

    /**
      `apply_geocode`, run row after row: the new `country` column holds,
      for every row, the code the final cache gives for its location, so
      equal locations get equal codes; the cache only gains entries.
     */
    method ApplyGeocode()
      requires Valid()
      modifies this`cache, this`memo, data
      ensures Valid()
      ensures cache == ResolveRows(gaz, old(cache), old(data.cells)["location"])
      ensures Extends(old(cache), cache)
      ensures data.height == old(data.height)
      ensures data.columns == if "country" in old(data.columns) then old(data.columns) else old(data.columns) + ["country"]
      ensures data.cells.Keys == old(data.cells).Keys + {"country"}
      ensures forall c | c in old(data.cells) && c != "country" :: data.cells[c] == old(data.cells)[c]
      ensures forall i :: 0 <= i < data.height ==>
        data.cells["country"][i] == Resolve(gaz, cache, CellText(old(data.cells)["location"][i])).code
    {
      var codes := GeocodeColumn(data.cells["location"]);
      data.Store("country", codes);
    }

    /**
      The row-by-row part of `apply_geocode`: every cell's text is geocoded
      in turn, and each code is what the final cache gives for that text.
     */
    method GeocodeColumn(locations: seq<Cell>) returns (codes: seq<Cell>)
      requires Valid()
      modifies this`cache, this`memo
      ensures Valid()
      ensures cache == ResolveRows(gaz, old(cache), locations)
      ensures Extends(old(cache), cache)
      ensures |codes| == |locations|
      ensures forall i :: 0 <= i < |locations| ==> codes[i] == Resolve(gaz, cache, CellText(locations[i])).code
    {
      codes := [];
      for i := 0 to |locations|
        invariant Valid()
        invariant cache == ResolveRows(gaz, old(cache), locations[..i])
        invariant |codes| == i
        invariant forall j :: 0 <= j < i ==> CellText(locations[j]) in memo && codes[j] == memo[CellText(locations[j])]
      {
        ghost var remembered := memo;
        var code := Geocode(CellText(locations[i]));
        ResolveRowsStep(gaz, old(cache), locations, i);
        RowsRemembered(locations, i, codes, remembered, code);
        codes := codes + [code];
      }
      assert locations[..|locations|] == locations;
      forall i | 0 <= i < |locations| ensures codes[i] == Resolve(gaz, cache, CellText(locations[i])).code {
        MemoAnswers(gaz, cache, memo, CellText(locations[i]));
      }
    }

    /**
      `apply_iso`: the `ISO` column is `country_iso` of each `country` cell.
      Without a `country` column pandas raises KeyError and nothing changes.
     */
    method ApplyIso() returns (ok: bool)
      requires Valid()
      modifies data
      ensures Valid()
      ensures ok <==> "country" in old(data.columns)
      ensures !ok ==> data.columns == old(data.columns) && data.cells == old(data.cells)
      ensures ok ==> data.cells == old(data.cells)["ISO" := IsoColumn(gaz, old(data.cells)["country"])]
      ensures ok ==> data.columns == if "ISO" in old(data.columns) then old(data.columns) else old(data.columns) + ["ISO"]
      ensures data.height == old(data.height)
    {
      if "country" !in data.columns {
        return false;
      }
      data.Store("ISO", IsoColumn(gaz, data.cells["country"]));
      ok := true;
    }

    /** `delete_links`: the cleaned text goes to `tweet`, `text` is kept. */
    method DeleteLinks() returns (ok: bool)
      requires Valid()
      modifies data
      ensures Valid()
      ensures ok <==> "text" in old(data.columns)
      ensures !ok ==> data.columns == old(data.columns) && data.cells == old(data.cells)
      ensures ok ==> data.cells == old(data.cells)["tweet" := Cleaned(old(data.cells)["text"])]
      ensures ok ==> data.columns == if "tweet" in old(data.columns) then old(data.columns) else old(data.columns) + ["tweet"]
      ensures data.height == old(data.height)
    {
      ok := Frames.DeleteLinks(data);
    }

    /**
      `remove_unnecessary_columns`: the denylisted columns go, the others
      keep their cells and their order, and `location` stays.
     */
    method RemoveUnnecessaryColumns()
      requires Valid()
      modifies data
      ensures Valid()
      ensures data.columns == Prune(old(data.columns), Useless)
      ensures forall c | c in data.cells :: c in old(data.cells) && data.cells[c] == old(data.cells)[c]
      ensures forall x :: x in data.columns <==> x in old(data.columns) && x !in Useless
      ensures data.height == old(data.height)
    {
      PruneColumns(data, Useless);
      PruneMembers(old(data.columns), Useless);
      WorkColumnsKept();
    }
  }

  /** Remembering one more row's code keeps every earlier row's code remembered. */
  lemma RowsRemembered(locations: seq<Cell>, i: nat, codes: seq<Cell>, memo: Cache, code: Cell)
    requires i < |locations| && |codes| == i
    requires CellText(locations[i]) in memo ==> code == memo[CellText(locations[i])]
    requires forall j :: 0 <= j < i ==> CellText(locations[j]) in memo && codes[j] == memo[CellText(locations[j])]
    ensures forall j :: 0 <= j < i + 1 ==>
      CellText(locations[j]) in memo[CellText(locations[i]) := code] &&
      (codes + [code])[j] == memo[CellText(locations[i]) := code][CellText(locations[j])]
  {
  }

  /** The `ISO` column is absent wherever the `country` column is, and "xk" always becomes "XKX". */
  lemma IsoColumnFollowsCountry(g: Gazetteer, countries: seq<Cell>)
    ensures forall i :: 0 <= i < |countries| && countries[i] == None ==> IsoColumn(g, countries)[i] == None
    ensures forall i :: 0 <= i < |countries| && countries[i] == Some("xk") ==> IsoColumn(g, countries)[i] == Some("XKX")
  {
  }
}
