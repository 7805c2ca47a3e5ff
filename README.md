# Tweet cleaning and location enrichment, modelled in Dafny

This project models the deterministic core of a tweet-analysis pipeline
about the war in Ukraine. A tweet table (a pandas DataFrame read from a CSV
dump) is cleaned in place:

- denylisted columns are dropped;
- links are stripped from the tweet text into a new `tweet` column;
- each free-text user location is resolved to a country code by a
  decision procedure over a write-once cache and three gazetteer lookups;
- that code is normalised to an ISO 3166-1 alpha-3 code;
- the result goes to a file whose name is derived from the input path.

The project has one module per concern:

| module | file | models |
|---|---|---|
| `Wrappers` | wrappers.dfy | `Option` |
| `Text` | text.dfy | the Python string and path primitives the code relies on. `str.split` (empty pieces counted), `split(c)[0]` and `split(c)[-1]`, `str.strip()` over the `isspace` set, `str.replace(pat, "")`, POSIX `os.path.basename` and `os.path.join` |
| `Links` | links.dfy | the link regular expression and `re.sub(pattern, "", s)` |
| `Frames` | frames.dfy | the DataFrame as a class (ordered labels, one cell sequence per label, a row count) with in-place `drop` and column assignment; the 16-name denylist and its pruning loop; the `tweet` column step |
| `Geocoding` | geocoding.dfy | `geocode` / `geocode_helper` as a function of the cache they read, and `country_iso` |
| `PreProcessor` | pre_processor.dfy | class `DataPreProcessor` (src/data_pre_processor.py): the seeded cache, `lru_cache` on `geocode` as a `memo` field, and the in-place pipeline steps |
| `Model` | model.dfy | class `Model` (src/model.py) |
| `DataProcessing` | data_processing.dfy | class `DataPreproccessing` (src/DataProcessing.py) |

The three lookups the resolver consults are parameters, not data. They are
the geonamescache country table, its city search and pycountry's fuzzy
search, gathered in `Geocoding.Gazetteer`. The properties are about the
order in which they are asked and what happens to the cache. The codes that
come back mix systems as in the source: geonamescache gives alpha-2
("US"); pycountry and the seeded cache give alpha-3 ("USA").

`lru_cache(maxsize=None)` on `geocode` is modelled as the field
`DataPreProcessor.memo`. The class invariant `Geocoding.MemoCoherent` says
that every remembered answer is what the cache alone would give.
`Geocode` is therefore specified the same way whether or not the call is
a memo hit.

Points where the code behaves differently from what its docstrings or a reader would expect (the model follows the code):

- **Reject rule.** A location is rejected when `location.split(" ")` has
  more than three pieces, i.e. at three or more space characters. Double
  spaces count; it is not a count of words (`Geocoding.RejectedIff`).
- **Failed resolution.** When every lookup fails, only the full string is
  cached, as `None`. The pre-comma token is not (`Geocoding.CacheWrites`).
- **Country without ISO.** A row can end with a country code and no ISO
  code, when the fuzzy search does not know the code the resolver
  returned (`Geocoding.CountryWithoutIso`).
- **The Kosovo case.** The "xk" check is exact and case-sensitive:
  "XK" goes to the fuzzy search (`Geocoding.KosovoFirst`).
- **Missing columns.** A missing `text` or `country` column raises
  `KeyError`; the model reports this as `ok == false` with the frame
  unchanged.

The `_PROCESS` target of src/DataProcessing.py joins onto the input path
itself. For a file `dir/name.csv` it is `dir/name.csv/name.csv_PROCESS`,
one level below the input file (`DataProcessing.ProcessTargetBelowInput`).
The `_PROCESSED` name of src/data_pre_processor.py removes every ".csv"
from the base name, not only a trailing one
(`PreProcessor.OutputNameDropsEveryCsv`).

## Model

| member | source | states |
|---|---|---|
| Text.Split | src/data_pre_processor.py:121 | `split(sep)` yields one more piece than there are separators, so the reject test counts separators, empty pieces included |
| Text.SplitJoin | src/data_pre_processor.py:124 | joining the pieces of a split with the separator gives the text back |
| Text.SplitFirst | src/data_pre_processor.py:124 | the first piece of `split(c)` is the text before the first `c` |
| Text.SplitLast | src/data_pre_processor.py:131 | the last piece of `split(c)` is the text after the last `c` |
| Text.StripIdempotent | src/data_pre_processor.py:124 | stripping a stripped text changes nothing |
| Text.RemoveCsvAfterFree | src/data_pre_processor.py:309 | `replace(".csv", "")` removes a first occurrence and goes on scanning behind it |
| Text.BasenameAfterSlash | src/data_pre_processor.py:309 | the base name of `dir/name` is `name` when `name` has no '/' |
| Links.LinkLength | src/data_pre_processor.py:260-262 | a match starts exactly where `http://` or `https://` is followed by a URL character |
| Links.StripLinksLinkFree | src/data_pre_processor.py:264-266 | no link is left in the output of `re.sub` |
| Links.StripLinksUnchangedIff | src/data_pre_processor.py:264-266 | the text comes back unchanged exactly when it holds no link |
| Links.StripLinksIdempotent | src/data_pre_processor.py:264-266 | a second removal changes nothing |
| Links.StripLinksAroundSeparator | src/data_pre_processor.py:260-262 | a space, `"`, `#` or any other non-URL character ends a link, so each side is cleaned independently |
| Frames.Frame.Drop | src/data_pre_processor.py:297 | `drop(m, axis=1)` removes exactly that column and its cells; the other columns keep their order and the rows are untouched |
| Frames.Frame.Store | src/data_pre_processor.py:264 | column assignment replaces the column or appends it as the last one |
| Frames.PruneColumns | src/data_pre_processor.py:295-297 | the loop leaves the columns pruned of the denylist, keeps every other column's cells and keeps the rows |
| Frames.PruneMembers | src/data_pre_processor.py:295-297 | a column survives exactly when it was present and is not denylisted |
| Frames.PruneUnchangedIff | src/model.py:9 | pruning changes nothing exactly when no denylisted name is present, so absent names are skipped |
| Frames.PruneIdempotent | src/model.py:8-10 | running the pruning loop a second time removes nothing further |
| Frames.PruneKeepsOrder | src/model.py:10 | two kept columns stand in the same relative order before and after |
| Frames.WorkColumnsKept | src/data_pre_processor.py:276-293 | `location`, `text`, `tweet`, `country` and `ISO` are not on the denylist |
| Frames.DeleteLinks | src/data_pre_processor.py:264-266 | `tweet` gets the cleaned `text` column and `text` is unchanged; a missing `text` column changes nothing |
| Frames.CleanedColumn | src/data_pre_processor.py:264-266 | every cleaned cell is present, link-free, no longer than `str(x)`, and equal to it exactly when it held no link |
| Geocoding.RejectedIff | src/data_pre_processor.py:121 | rejected exactly for "nan" or at least three space characters |
| Geocoding.RejectedFirst | src/data_pre_processor.py:121-122 | a rejected location gives `None` whatever the cache and the gazetteer hold, and leaves the cache as it was |
| Geocoding.FourWordsRejected | src/data_pre_processor.py:121-122 | four space-free words joined by single spaces are rejected before any cache read |
| Geocoding.HeadTailArePieces | src/data_pre_processor.py:124-131 | `loc` and `loc2` are the first and the last comma piece, stripped |
| Geocoding.HeadIdempotent | src/data_pre_processor.py:124 | the pre-comma token of a pre-comma token is itself |
| Geocoding.NoCommaOneSegment | src/data_pre_processor.py:124-131 | without a comma, `loc` and `loc2` are both the stripped location |
| Geocoding.PlainName | src/data_pre_processor.py:121-131 | a plain name (not "nan", no comma, fewer than three spaces, no blanks around) is accepted and is its own first and last segment |
| Geocoding.CacheAnswers | src/data_pre_processor.py:126-129 | a cache entry for the full string wins over one for the token; either answers with no lookup and no write |
| Geocoding.SeededNames | src/data_pre_processor.py:37-42 | "New York", "NYC" and "Boston" give "USA" and "England" gives "GBR" from the seeded cache with no lookup |
| Geocoding.SeededToken | src/data_pre_processor.py:121-129 | a seeded name followed by a comma and any text that is not rejected (such as "NYC, NY") gets the seeded code through its pre-comma token, with no lookup and no write |
| Geocoding.LookupOrder | src/data_pre_processor.py:131-176 | on a miss, the chain is country table then city search on `loc`, the same on `loc2`, then the best fuzzy hit for `loc2`; `None` exactly when all miss |
| Geocoding.CacheWrites | src/data_pre_processor.py:138-147 | the cache only gains keys, only the full string and `loc`, only when both were absent; on success both map to the code, on a last miss only the full string maps to `None` |
| Geocoding.ResolveTwice | src/data_pre_processor.py:126-147 | after one call the location is settled; a second call gives the same code and writes nothing |
| Geocoding.SettledStable | src/data_pre_processor.py:126-129 | a settled location keeps its answer as the cache grows |
| Geocoding.OtherKept | src/data_pre_processor.py:126-147 | a call on one location does not change the answer for another settled one |
| Geocoding.CoherenceKept | src/data_pre_processor.py:105-106 | answers remembered by `lru_cache` stay equal to what the grown cache gives |
| Geocoding.MemoStep | src/data_pre_processor.py:105-147 | one memoised call: a remembered location is answered as remembered, the cache only gains entries, and memory and cache stay coherent |
| Geocoding.KosovoFirst | src/data_pre_processor.py:224-225 | "xk" gives "XKX" before anything else; "XK" goes to the fuzzy search |
| Geocoding.CountryIsoNoneIff | src/data_pre_processor.py:224-235 | `None` exactly for None, "nan" and a fuzzy miss; otherwise "XKX" or the best fuzzy hit |
| Geocoding.NoCountryNoIso | src/data_pre_processor.py:227-228 | an unresolved location gets no ISO code |
| Geocoding.ResolveFromTable | src/data_pre_processor.py:131-147 | a plain name the cache lacks and the country table knows gets the table's code, written once under its own key |
| Geocoding.CountryWithoutIso | src/data_pre_processor.py:224-235 | such a name ends with its country code and no ISO code when the fuzzy search does not know that code |
| PreProcessor.Stringified | src/data_pre_processor.py:43 | after `astype(str)` every cell is present: a present cell is kept and a missing one becomes "nan" |
| PreProcessor.StringifiedIdempotent | src/data_pre_processor.py:43 | converting an already converted column again changes nothing |
| PreProcessor.ResolveRows | src/data_pre_processor.py:186-188 | geocoding the rows in order only adds cache entries, and only under the rows' texts and their pre-comma tokens |
| PreProcessor.DataPreProcessor.constructor | src/data_pre_processor.py:32-43 | needs at least 20000 rows for the discarded sample; the cache starts as the seed, nothing is remembered, and only the `location` column changes |
| PreProcessor.DataPreProcessor.Geocode | src/data_pre_processor.py:105-147 | the answer and the new cache are what the resolver gives against the old cache; a remembered location returns its remembered code; the cache only gains entries |
| PreProcessor.DataPreProcessor.GeocodeBody | src/data_pre_processor.py:121-147 | the body's early returns and writes produce exactly the resolver's answer and cache |
| PreProcessor.DataPreProcessor.ApplyGeocode | src/data_pre_processor.py:186-188 | the final cache is the one left by geocoding the `location` cells in row order; every row's `country` is the code that cache gives for its location, so equal locations get equal codes; other columns are unchanged |
| PreProcessor.DataPreProcessor.GeocodeColumn | src/data_pre_processor.py:186-188 | the final cache is the one left by geocoding the cells one after another, each call starting from the previous call's cache; each row's code is what that cache gives for its text |
| PreProcessor.DataPreProcessor.ApplyIso | src/data_pre_processor.py:245-247 | `ISO` is `country_iso` of every `country` cell; a missing `country` column changes nothing |
| PreProcessor.DataPreProcessor.DeleteLinks | src/data_pre_processor.py:260-266 | `tweet` gets the cleaned `text` column, replaced in place or appended as the last column; a missing `text` column changes nothing |
| PreProcessor.DataPreProcessor.RemoveUnnecessaryColumns | src/data_pre_processor.py:276-297 | denylisted columns go, the others keep their order and cells, and `location` stays |
| PreProcessor.IsoColumnFollowsCountry | src/data_pre_processor.py:224-228 | a missing country gives a missing ISO code and "xk" gives "XKX" in every row |
| PreProcessor.OutputName | src/data_pre_processor.py:307-311 | the name lies in "../data/tweets_processed/", ends in "_PROCESSED.csv" and is no longer than folder, base name and suffix |
| PreProcessor.OutputNameDropsEveryCsv | src/data_pre_processor.py:307-311 | every ".csv" of the base name is removed, not only a trailing one, and the input's folders do not matter |
| PreProcessor.OutputNameOfCsv | src/data_pre_processor.py:307-311 | `dir/stem.csv` becomes "../data/tweets_processed/stem_PROCESSED.csv" |
| Model.Model.constructor | src/model.py:7-10 | no denylisted column remains, the others keep their order and cells, and the rows are untouched |
| DataProcessing.ProcessTarget | src/DataProcessing.py:108 | the target is the input path, a '/' unless the path is empty or ends in one, the base name and "_PROCESS" |
| DataProcessing.ProcessTargetBelowInput | src/DataProcessing.py:108 | for `dir/name` the target is `dir/name/name_PROCESS`: below the input file, with its ".csv" kept |
| DataProcessing.DataPreproccessing.constructor | src/DataProcessing.py:11-13 | the frame and the route are kept |
| DataProcessing.DataPreproccessing.DeleteLinks | src/DataProcessing.py:93-97 | `tweet` gets the cleaned `text` column, replaced in place or appended as the last column, and the same frame is returned |
| DataProcessing.DataPreproccessing.UnnecessaryColumns | src/DataProcessing.py:99-105 | denylisted columns go, the others keep their order and cells, and the same frame is returned |
| DataProcessing.DataPreproccessing.BackToCsvTarget | src/DataProcessing.py:108 | the path handed to `to_csv` extends the input path |

## Left out

- BERT loading and inference (`loadModel`, `apply_tweet_position`): tensor computation with floating-point logits.
- `iso2_to_name` and `apply_name`: a single call into pycountry.
- `find_country` and `apply_find_country` in src/DataProcessing.py: they call a web geocoding service from a thread pool.
- `preprocess_data`: a driver that prints progress and calls the steps above, together with the BERT and `apply_name` steps that are not modelled.
- File I/O: `read_csv`, `to_csv` and `print`. Only the frame read in and the output path are modelled; the three constructors take the frame as a parameter.
- The gazetteer contents: the country table, the city search and the fuzzy search are the parameter `Gazetteer`. The city search is reduced to the "countrycode" of each hit, and a fuzzy search that raises `LookupError` is an empty hit list.
- PreProcessor.DataPreProcessor.ApplyGeocode: swifter's parallel apply is modelled as a sequential loop over the rows.
- PreProcessor.DataPreProcessor.ApplyIso: modelled as a sequential map, for the same reason.
- PreProcessor.DataPreProcessor.constructor: a missing `location` column raises `KeyError` in pandas; the model takes its presence as a precondition.
- PreProcessor.DataPreProcessor.constructor: `.sample(20000)` raises `ValueError` on a file of fewer than 20000 rows; the model states this as the precondition `frame.height >= SampleSize` and does not model the failing call. The sampled rows themselves are discarded by the second read, so they are not modelled.
- `lru_cache` on `country_iso`: it is invisible because the normaliser is a pure function of a fixed gazetteer.
- `lru_cache` holding `self` alive and being shared across instances with equal hashes: not modelled; the memo is per instance.
- Frames.Frame: column labels are assumed distinct, which `read_csv` guarantees by renaming repeated headers. Cells are text or missing; `str(x)` of a numeric cell is not modelled.
- Model.Model.constructor: `print(self.data.columns)` is left out as output.
