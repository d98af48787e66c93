# Accident-statistics ingestion core, modelled in Dafny

This project models the ingestion core of `download.py`. That file loads the
Czech police road-accident dataset (PČR) into columns per region. The model
covers these parts:

- **`int_validator`** and the text handling it relies on. This means Python's
  `str.strip()` and `int()` on a token, plus the inclusive-range check. The
  decimal-comma rewrite of `float_validator` is also covered (module
  `Validators`).
- **The `headers` table.** It has 64 fields in CSV order. Each field has a name,
  a numpy dtype and a validator. Each validator is written as a tagged
  `FieldKind`: range-checked integer with an optional override token, float,
  date, or raw text. The **`regions` table** maps the 14 short names to their
  two-digit CSV member codes (module `Schema`).
- **`parse_region_data`.** It looks up the region code, then runs the download
  step. Then it scans the archives in order and opens `<code>.csv` in each.
  Each row's tokens are zipped against the headers, so short rows are
  truncated. A row whose raw `p1` token was seen before is dropped. Finally the
  constant `region` column is added (module `RegionParser`).
- **`get_dict`**, in two modules:
  - The per-region read-through cache (module `Cache`). The memory dict is
    checked first, then the gzip+pickle file. The parse runs only when that
    file is absent.
  - The aggregation (module `Aggregator`). An empty request means all
    regions. Each region's column set is fetched in request order. Every
    column is concatenated across regions.

Observable side effects are recorded in an effect log: opening a cache file,
running the download step, opening an archive member, and writing a cache file.
This log lets the contracts say "no parse happens", "nothing is downloaded" and
"a file is written once". The instance state of `DataDownloader` becomes an
explicit `CacheState` value. It holds `mem_cache` and the cache folder as a map
from file name to content. Each operation takes a `CacheState` and returns the
new one.

Behaviour of `download.py` that the model keeps as written:

- No retry when a region yields no rows. `download_data` runs exactly once
  before every parse, and a parse that finds nothing returns empty columns.
- A missing `<code>.csv` member in any archive is not caught. The parse fails
  at that archive (`MissingMember`), and so does `get_dict`.
- A short row is truncated by `zip`, not skipped. Its missing fields leave
  their columns shorter, so the `region` column follows the `p1` column.
- Loading a region from its cache file does not put it in the memory cache.
  Only a fresh parse stores to memory.
- Only `FileNotFoundError` falls through to a parse. Any other failure to read
  the cache file propagates (`UnreadableCache`).
- A region name missing from the `regions` table fails only when a parse is
  needed. A memory or file hit under that name succeeds.

Python's `int()` is modelled concretely. It skips surrounding whitespace:
ASCII space, `\t` to `\r`, and every non-ASCII character `str.isspace` accepts.
It does not skip the separators U+001C to U+001F, which `str.strip()` removes.
It takes an optional sign, then ASCII digits, with single underscores allowed
between digits. `float()` and `np.datetime64()` are kept symbolic: a
float cell is `Real(normalised text)` and a date cell is `Day(text)`.

## Model

| member | source | states |
|---|---|---|
| Validators.StripWith | download.py:43 | removing leading and trailing characters of a whitespace class leaves the empty text exactly for an all-whitespace token, and otherwise a text that begins and ends outside the class |
| Validators.Strip | download.py:119 | `v.strip()` is empty exactly when the token is all whitespace; otherwise it begins and ends with a non-space character and is no longer than the token |
| Validators.StripPadded | download.py:119-120 | stripping whitespace padding from around a trimmed token gives back exactly that token |
| Validators.ParseInt | download.py:42-45 | a token `int(val)` accepts is non-empty once its surrounding whitespace is skipped, and starts with a non-space character |
| Validators.ParseIntBlank | download.py:42-45 | `int(val)` raises on a token `str.strip()` empties |
| Validators.ParseIntAgreesWithStrip | download.py:42-45 | when `int(val)` accepts a token, skipping its whitespace is the same as `str.strip()`, so the value is read from the stripped token |
| Validators.ParseIntKeepsSeparators | download.py:43 | a leading U+001C is removed by `str.strip()` but makes `int()` raise |
| Validators.ParseShowInt | download.py:43 | `int()` reads back the decimal spelling of every integer, negative ones included, whatever whitespace `int()` skips surrounds it |
| Validators.DigitsValueShowNat | download.py:43 | the digit string of a natural number evaluates back to that number |
| Validators.CheckRanges | download.py:50-53 | the range loop returns the value exactly when some inclusive `(left, right)` pair contains it, and the sentinel otherwise |
| Validators.IntValidator | download.py:21-53 | an unparsable token gives the sentinel; with no ranges the parsed value is returned; with ranges the parsed value is returned exactly when it lies in their union; any other result is the sentinel |
| Validators.NormalizeDecimalMark | download.py:70 | `replace(',', '.')` keeps the length, turns every comma into a period and leaves every other character alone |
| Validators.NormalizeDecimalMarkAgrees | download.py:69-70 | two spellings that differ only in using `,` or `.` as the decimal mark normalise to the same text |
| Schema.HeaderAt | download.py:116-188 | every header entry is found by name at its own position, so the name-to-column lookup inverts the table |
| Schema.HeaderNamesDistinct | download.py:116-188 | the table has 64 pairwise distinct names, and `region` is not one of them |
| Schema.Validate | download.py:117-187 | an integer field always yields an integer that is in range, its override value, or -1; a matching stripped override token wins; any other token goes through `int_validator` with sentinel -1; date and text fields keep the raw token |
| Schema.BlankTokens | download.py:119-185 | a whitespace-only token in an integer field becomes -2 for p45a, p48a, p49, p50a, p50b, p51, p52, n, r and s; it becomes 0 for p37 and p24; it becomes -1 for every other integer field |
| Schema.UnparsedToken | download.py:119-185 | a token `int()` rejects yields the field's override value when the stripped token is the override token, and -1 otherwise |
| Schema.BlankOverrides | download.py:119-185 | exactly p45a, p48a, p49, p50a, p50b, p51, p52, n, r and s override the blank token with -2, exactly p37 and p24 override it with 0, and no other integer field overrides it |
| Schema.XXToken | download.py:156 | a token that strips to "XX" becomes -2 in `p47` and -1 in every other integer field |
| Schema.XXOverrides | download.py:156 | `p47` is the only field that overrides the token "XX", and it does so with -2 |
| Schema.P5aExamples | download.py:187 | `p5a` is column 63; it rejects "7" as -1 and keeps "1" |
| Schema.FloatSpellingsAgree | download.py:169-174 | float fields give the same value for `,` and `.` decimal marks |
| Schema.NarrowFieldsFit | download.py:116-188 | every value a range-checked `i1` or `i2` field can produce fits its dtype; `p2b` is the only unchecked narrow field |
| Schema.RegionCode | download.py:190-205 | `regions[region]` is a two-character code for a known region and a `KeyError` otherwise |
| Schema.RegionCodeInverse | download.py:190-205 | every known region is recovered from its code |
| Schema.RegionNamesAreKeys | download.py:190-205 | the table has exactly 14 regions, and the default region order lists exactly the names the table knows |
| Schema.RegionNamesDistinct | download.py:190-205 | no region is listed twice in the default order |
| Schema.RegionCodesDistinct | download.py:190-205 | no two region names share a code, so no two regions read the same CSV member |
| RegionParser.EmptyColumns | download.py:256 | `result` starts with one empty list per header |
| RegionParser.Repeat | download.py:284 | `np.repeat(region, n)` has length n and every entry is the region |
| RegionParser.AppendRow | download.py:268-278 | zipping a row against the headers appends exactly one value to each of the first `min(64, len(row))` columns and leaves the other columns as they were |
| RegionParser.StepRow | download.py:268-278 | one row adds its `p1` token to `used_ids`; columns only grow; the `p1` column grows by one exactly when the row is non-empty and its token is new |
| RegionParser.StepRows | download.py:267-278 | consuming rows only adds to `used_ids` and only appends to columns, and the `p1` column gains at most one entry per row |
| RegionParser.StepRowsComputesColumns | download.py:267-278 | the row loop, from a fresh state, yields for each header the validated tokens of the first-occurrence rows that reach that column, and `used_ids` ends as the set of all `p1` tokens met |
| RegionParser.StepRowsAppend | download.py:262-278 | consuming two row blocks in turn is the same as consuming their concatenation, so the state carries over between archives |
| RegionParser.KeptIdsDistinct | download.py:269-274 | every accepted row is non-empty, no two accepted rows share a `p1` token, and every `p1` token met is the token of some accepted row |
| RegionParser.KeptIsFirstOccurrences | download.py:269-274 | the accepted rows are exactly the first occurrences of each `p1` token, and never outnumber the input |
| RegionParser.KeptHasFirstOccurrences | download.py:269-274 | every first occurrence of a `p1` token is accepted |
| RegionParser.KeptOnlyFirstOccurrences | download.py:269-274 | every accepted row is the first occurrence of its `p1` token |
| RegionParser.KeptPrefix | download.py:267-274 | the rows accepted from a prefix of the input are a prefix of those accepted from all of it, so accepted rows keep input order |
| RegionParser.DedupRawTokens | download.py:271 | " 1" is not treated as a repeat of "1"; a second "1" row is dropped whole; an empty row adds nothing |
| RegionParser.ShortRowTruncated | download.py:268 | a row shorter than the header table still contributes the columns it reaches and leaves the rest shorter |
| RegionParser.FirstColumnLength | download.py:268-278 | the `p1` column has exactly one entry per accepted row |
| RegionParser.ColumnLengthLongRows | download.py:268-278 | when no accepted row is short, every column has one entry per accepted row |
| RegionParser.KeptRowsLong | download.py:269-274 | deduplication introduces no short row |
| RegionParser.KeptColumnsFull | download.py:268-278 | when no input row is short, every column of the accepted rows has one entry per accepted row |
| RegionParser.MemberName | download.py:264 | the member opened is the region code followed by a four-character suffix |
| RegionParser.MemberNameInjective | download.py:264 | different codes never open the same member |
| RegionParser.Scan | download.py:262-264 | archives are opened in order, one member each; the scan succeeds exactly when every archive has the member; otherwise it stops at the first archive without it and reports that archive |
| RegionParser.ScanReadsAllRows | download.py:262-278 | when every archive has the member, the scan equals the row loop over all archives' rows concatenated in glob order |
| RegionParser.ToColumns | download.py:280-284 | the result dict has exactly the header names and `region` as keys; each header maps to its column; `region` repeats the region name once per `p1` entry |
| RegionParser.ParseRegion | download.py:243-285 | an unknown region fails before any effect; a known one downloads first and then opens `<code>.csv` archive by archive; success reads every archive and gives a well-formed column set; failure names the first archive lacking the member |
| RegionParser.ParseRegionContents | download.py:255-284 | a successful parse holds, per header, the validated tokens of the first occurrences across all archives; `region` has one entry per accepted row |
| RegionParser.ParseRegionRectangular | download.py:268-284 | with no short rows, every column, `region` included, has one entry per accepted row |
| Cache.CacheFileNameInjective | download.py:310 | different regions never share a cache file name |
| Cache.CacheFileName | download.py:310 | the cache file name is the region name inside a fixed 12-character template |
| Cache.Store | download.py:326-329 | storing a region whose memory entry and file are both absent keeps everything already cached |
| Cache.Fetch | download.py:306-329 | a memory hit returns at once with no effect; otherwise the cache file is opened first; a file hit changes nothing and returns the pickled data or the read error; downloading happens exactly when both tiers miss and the region is known; only a successful parse changes the state; it writes the region's previously absent file once, as the last effect; everything already cached is kept |
| Cache.ParseAndStore | download.py:315-329 | on the parse path the absent file is opened first, the parse's effects follow, and its result is passed on; a failed parse changes nothing; a successful one is stored in memory and in its file, and writing that file is the last effect; nothing already cached is lost |
| Cache.FetchMiss | download.py:315-329 | when both tiers miss, the fetch returns exactly what `parse_region_data` returns, with the parse's effects right after opening the absent file; a successful parse is stored in memory and in its file, written as the last effect, and a failed one changes nothing |
| Cache.FetchParsedFrom | download.py:306-329 | if everything cached came from parsing the archives, a fetch keeps that so and returns exactly the region's parse result, error included, whichever tier answers |
| Cache.FetchIdempotent | download.py:306-329 | a second fetch of the same region returns the same data with the same state, only opening files, whatever the archives are by then |
| Cache.CacheFileRoundTrip | download.py:312-327 | after a parse, a process with an empty memory cache and the same files loads the same data from the file alone |
| Cache.FetchCoherent | download.py:306-329 | if every cached column set has the shape a parse of its region gives, fetching keeps that so and returns a set of that shape |
| Cache.FetchBacks | download.py:315-329 | if each memory entry matches its file, fetching keeps that so, and a successful fetch leaves the region's file holding the returned data |
| Cache.FetchReplay | download.py:306-314 | if each memory entry matches its file, a region whose file holds some data is returned as that data, with no change and no effect other than opening the file |
| Aggregator.Requested | download.py:302 | an empty request becomes the full region list; a non-empty request is used as given; the result is never empty |
| Aggregator.RequestedDefault | download.py:302 | an empty request lists all 14 regions of the table, each once, and only those |
| Aggregator.KeyOrder | download.py:303 | the output keys, in dict order, are the 64 header names in table order followed by `region` |
| Aggregator.FirstMissingKey | download.py:331-332 | reports a key exactly when some listed key is absent from a region's data; the key reported is absent and every key listed before it is present, so it is the key `region_data[coll_key]` raises on |
| Aggregator.MissingKey | download.py:331-332 | a region's data raises in the key loop exactly when it lacks an output key, and the key reported is the first one it lacks in `cols` order |
| Aggregator.Gather | download.py:304-332 | a successful loop gives one column set per requested region, each holding every output key, and keeps everything already cached |
| Aggregator.GatherNext | download.py:304-332 | one more region appends one column set holding every output key after the earlier ones, and keeps everything already cached |
| Aggregator.Concat | download.py:333-334 | concatenating a single region's column gives that column unchanged |
| Aggregator.ConcatAll | download.py:333-335 | the returned dict has exactly the 64 header names and `region` as keys |
| Aggregator.GetDict | download.py:287-335 | a successful call returns exactly the header names and `region` as keys, and keeps everything already cached |
| Aggregator.ConcatAppend | download.py:333-334 | concatenating two groups of regions is the concatenation of each group's concatenation |
| Aggregator.ConcatLayout | download.py:333-334 | each region's rows appear as one contiguous block in request order, between the earlier and the later regions' rows |
| Aggregator.ConcatLength | download.py:333-334 | a combined column is as long as the sum of the regions' columns |
| Aggregator.GetDictConcat | download.py:331-334 | a successful call gathered one column set per requested region, and every output key maps to that key's columns concatenated |
| Aggregator.GetDictColumns | download.py:331-334 | every output column is its per-region columns concatenated in request order, with the summed length |
| Aggregator.GatherStaysCoherent | download.py:304-329 | gathering from a coherent cache leaves it coherent |
| Aggregator.GatherCoherent | download.py:304-332 | from a coherent cache, every gathered column set is well formed for its own region |
| Aggregator.ConcatRegionColumn | download.py:331-334 | the combined `region` column is one block per region, each naming that region once per `p1` entry |
| Aggregator.GetDictRegionColumn | download.py:287-335 | with a coherent cache, the output `region` column is one block per requested region, in request order, and is exactly as long as the output `p1` column |
| Aggregator.ConcatRectangular | download.py:333-334 | if every region's columns have equal length, all concatenated columns have the same total length |
| Aggregator.GetDictRectangular | download.py:331-334 | if every region's column set has all columns of equal length, so does the combined one |
| Aggregator.FetchWritesOnce | download.py:326-327 | one fetch writes its cache file at most once |
| Aggregator.GatherWritesFresh | download.py:312-327 | every cache file written during `get_dict` was absent before the call and is present after it |
| Aggregator.GatherWritesOnce | download.py:304-329 | no cache file is written twice during one `get_dict` call |
| Aggregator.GatherKeepsMemBacked | download.py:304-329 | if each memory entry matches its file, that still holds after the whole region loop |
| Aggregator.GatherStoresFiles | download.py:304-329 | after a successful loop, each requested region's file holds exactly the data returned for it |
| Aggregator.GatherReplay | download.py:304-332 | when every requested region's file holds a full column set, the loop only opens files, changes nothing and returns those sets |
| Aggregator.GatherStaysParsed | download.py:304-329 | if everything cached came from parsing the archives, that still holds after the whole region loop |
| Aggregator.GatherParses | download.py:304-332 | from such a cache, a successful loop means every requested region parses, and the column sets are those parses in request order |
| Aggregator.GetDictFromParses | download.py:287-335 | on a fresh `DataDownloader`, a successful `get_dict` means every requested region parses, and each output column is that key's parsed columns concatenated in request order |
| Aggregator.GatherSucceeds | download.py:304-332 | if everything cached came from parsing the archives and every requested region parses, the loop succeeds and returns exactly those parses in request order |
| Aggregator.GetDictOfParses | download.py:287-335 | from such a cache, when every requested region parses, `get_dict` returns each key's parsed columns concatenated in request order |
| Aggregator.GetDictSucceeds | download.py:287-335 | on a fresh `DataDownloader`, `get_dict` succeeds if and only if every requested region parses, and then returns each key's parsed columns concatenated in request order |
| Aggregator.GetDictIdempotent | download.py:287-335 | calling `get_dict` again with the same regions returns the same columns and leaves the cache unchanged; it opens only cache files, with no download, parse or write, whatever the archives are by then |

## Left out

- `download_data`: the network fetch and HTML scraping (download.py:227-241) is not modelled. Its call before each parse is kept as the `Download` effect. The archives a parse reads are an explicit parameter. One `get_dict` call passes the same archives to every region's parse, so a `download_data` run that adds archives between two parses of the same call is not expressible.
- ZIP, gzip and pickle handling, `csv.reader` tokenising and cp1250 decoding are not modelled. An archive is a map from member name to already-split rows. A cache file is its loaded content or `Unreadable`.
- `glob` order: the archive sequence stands for whatever order `glob.glob` returns.
- `float()` and `np.datetime64()` numerics, and the NaN and NaT fallbacks (download.py:56-93), are not modelled. Float and date cells keep their normalised text.
- Numpy dtype casts (download.py:281-282) are not modelled. Values are unbounded integers. `Schema.NarrowFieldsFit` shows that no range-checked narrow field can overflow.
- `Validators.ParseInt`: non-ASCII Unicode digits and CPython's 4300-digit limit on `int()` are not modelled. cp1250 text cannot hold non-ASCII digits.
- `download_data` failures: the model's `Download` effect never fails. In the source, `requests.get(self.url)` (download.py:230) raises when the site cannot be reached, so every cache miss raises even when the archives are already on disk. The model assumes the call returns.
- Cache-file write failures: `Store` writes the file and fills memory in one step that cannot fail. In the source, `gzip.open(..., "wb")` or `pickle.dump` (download.py:326-327) can raise after a successful parse. `get_dict` then raises, `mem_cache` is not filled, and a partly written file can stay behind. Later calls would then find that file unreadable and never parse again.
- `Cache.Fetch`: its own contract does not name the parse result on the path where both tiers miss. `Cache.FetchMiss` states that, because carrying the parse in every fetch's contract makes every proof about the region loop much more expensive.
- `Schema.Validate`: for float fields the contract states only that the result is a float cell. What the float is depends on `float()`, which is left symbolic.
- The cache filename template and folder are fixed to the defaults (download.py:207-224). `url` is not modelled.
- `regions` passed as an arbitrary iterable or generator is not modelled. A request is a sequence of names, and `None` is the empty sequence.
- `DataDownloader` as a mutable object is not modelled. Its state is threaded as a `CacheState` value.
- Numpy's `size` and `np.repeat` are not modelled. They are plain sequence lengths and repetition.
- The `__main__` demo and `doc.py`, `analysis.py`, `geo.py` and `get_stat.py` are outside this model.
