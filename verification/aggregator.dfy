/**
 * `get_dict` (download.py:287-335): each requested region's column set is
 * obtained through the cache, its columns are collected in request order,
 * and every column is concatenated across the regions.
 */
module Aggregator {
  import opened Results
  import opened Schema
  import opened Io
  import opened RegionParser
  import opened Cache

  /** `regions if regions else self.regions.keys()`: an empty request means every region. */
  function Requested(regions: seq<string>): (r: seq<string>)
    ensures |r| > 0
    ensures regions != [] ==> r == regions
    ensures regions == [] ==> r == RegionNames
  {
    if regions == [] then RegionNames else regions
  }

  /**
   * With no regions given, the request is every key of the `regions` dict,
   * each once, in the dict's order.
   */
  lemma RequestedDefault()
    ensures Requested([]) == RegionNames && |Requested([])| == 14
    ensures forall name | name in Requested([]) :: RegionCode(name).Some?
    ensures forall name | RegionCode(name).Some? :: name in Requested([])
    ensures forall j, k | 0 <= j < k < |Requested([])| :: Requested([])[j] != Requested([])[k]
  {
    RegionNamesAreKeys();
    RegionNamesDistinct();
  }

  /** The keys of `cols`, in dict order: the header names, then "region". */
  function KeyOrder(): (keys: seq<string>)
    ensures |keys| == HeaderCount + 1 && keys[HeaderCount] == RegionColumn
    ensures forall i | 0 <= i < HeaderCount :: keys[i] == HeaderAt(i).name
    ensures forall k | k in OutputKeys :: k in keys
    ensures forall k | k in keys :: k in OutputKeys
  {
    var keys := HeaderNames + [RegionColumn];
    assert forall i | 0 <= i < HeaderCount :: keys[i] == HeaderAt(i).name;
    keys
  }

  /** The first key, in order, that `d` lacks: the one `region_data[coll_key]` raises on. */
  function FirstMissingKey(d: Columns, keys: seq<string>): (r: Option<string>)
    ensures r.None? <==> forall k | k in keys :: k in d
    ensures r.Some? ==> r.value in keys && r.value !in d
    ensures r.Some? ==> exists i | 0 <= i < |keys| :: keys[i] == r.value && forall j | 0 <= j < i :: keys[j] in d
  {
    if keys == [] then None
    else if keys[0] !in d then Some(keys[0])
    else FirstMissingKey(d, keys[1..])
  }

  /** The key `region_data[coll_key]` raises on, scanning the output keys in dict order. */
  function MissingKey(d: Columns): (r: Option<string>)
    ensures r.None? <==> d.Keys >= OutputKeys
    ensures r.Some? ==> r.value in OutputKeys && r.value !in d
    ensures r.Some? ==>
              exists i | 0 <= i < |KeyOrder()| :: KeyOrder()[i] == r.value && forall j | 0 <= j < i :: KeyOrder()[j] in d
  {
    FirstMissingKey(d, KeyOrder())
  }

  datatype Gathered = Gathered(state: CacheState, result: Result<seq<Columns>, Error>, effects: seq<Effect>)

  /**
   * The region loop: fetch each region in order through the cache and
   * collect its columns; the first fetch that raises, or a column set
   * without one of the keys, ends the loop with that error.
   */
  function Gather(s: CacheState, regions: seq<string>, archives: seq<Archive>): (g: Gathered)
    ensures g.result.Ok? ==> |g.result.value| == |regions|
    ensures g.result.Ok? ==> forall j | 0 <= j < |regions| :: g.result.value[j].Keys >= OutputKeys
    ensures Extends(s, g.state)
  {
    if regions == [] then Gathered(s, Ok([]), [])
    else
      var prev := Gather(s, regions[..|regions| - 1], archives);
      if prev.result.Err? then prev else GatherNext(prev, regions[|regions| - 1], archives)
  }

  /** One turn of the region loop, after the earlier regions were gathered without error. */
  function GatherNext(prev: Gathered, region: string, archives: seq<Archive>): (g: Gathered)
    requires prev.result.Ok?
    requires forall j | 0 <= j < |prev.result.value| :: prev.result.value[j].Keys >= OutputKeys
    ensures g.result.Ok? ==> |g.result.value| == |prev.result.value| + 1
    ensures g.result.Ok? ==> forall j | 0 <= j < |prev.result.value| :: g.result.value[j] == prev.result.value[j]
    ensures g.result.Ok? ==> forall j | 0 <= j < |g.result.value| :: g.result.value[j].Keys >= OutputKeys
    ensures Extends(prev.state, g.state)
  {
    var f := Fetch(prev.state, region, archives);
    var effects := prev.effects + f.effects;
    match f.result
    case Err(e) => Gathered(f.state, Err(e), effects)
    case Ok(d) =>
      match MissingKey(d)
      case Some(k) => Gathered(f.state, Err(MissingColumn(region, k)), effects)
      case None => Gathered(f.state, Ok(prev.result.value + [d]), effects)
  }

  /** One more region: `Gather` is the gathering of the earlier regions, then one fetch. */
  lemma GatherStep(s: CacheState, regions: seq<string>, archives: seq<Archive>)
    requires regions != []
    ensures var n := |regions| - 1;
            var prev := Gather(s, regions[..n], archives);
            var g := Gather(s, regions, archives);
            && (prev.result.Err? ==> g == prev)
            && (prev.result.Ok? ==>
                  var f := Fetch(prev.state, regions[n], archives);
                  && g.state == f.state
                  && g.effects == prev.effects + f.effects
                  && (g.result.Ok? ==> f.result.Ok? && g.result.value == prev.result.value + [f.result.value]))
  {
  }

  /** `np.concatenate` of one key's column over the regions, in order. */
  function Concat(ds: seq<Columns>, key: string): (c: seq<Value>)
    requires forall j | 0 <= j < |ds| :: key in ds[j]
    ensures |ds| == 1 ==> c == ds[0][key]
  {
    if ds == [] then [] else Concat(ds[..|ds| - 1], key) + ds[|ds| - 1][key]
  }

  /** The output dict of `get_dict`: every output key's column concatenated over the regions. */
  function ConcatAll(ds: seq<Columns>): (out: Columns)
    requires forall j | 0 <= j < |ds| :: ds[j].Keys >= OutputKeys
    ensures out.Keys == OutputKeys
  {
    map key | key in OutputKeys :: Concat(ds, key)
  }

  /** `get_dict(regions)`: the concatenated columns, or the first error raised. */
  function GetDict(s: CacheState, regions: seq<string>, archives: seq<Archive>): (out: Fetched)
    ensures out.result.Ok? ==> out.result.value.Keys == OutputKeys
    ensures Extends(s, out.state)
  {
    var g := Gather(s, Requested(regions), archives);
    match g.result
    case Err(e) => Fetched(g.state, Err(e), g.effects)
    case Ok(ds) => Fetched(g.state, Ok(ConcatAll(ds)), g.effects)
  }

  // ---------------------------------------------------------------------
  // Layout of the concatenated columns.

  lemma {:induction false} ConcatAppend(a: seq<Columns>, b: seq<Columns>, key: string)
    requires forall j | 0 <= j < |a| :: key in a[j]
    requires forall j | 0 <= j < |b| :: key in b[j]
    ensures Concat(a + b, key) == Concat(a, key) + Concat(b, key)
  {
    if b == [] {
      assert a + b == a;
    } else {
      var ab := a + b;
      assert ab[..|ab| - 1] == a + b[..|b| - 1];
      ConcatAppend(a, b[..|b| - 1], key);
    }
  }

  /**
   * Regions' rows lie contiguously, in request order: the combined column is
   * the regions before j, then region j's own column, then the regions after.
   */
  lemma {:induction false} ConcatLayout(ds: seq<Columns>, key: string, j: nat)
    requires forall i | 0 <= i < |ds| :: key in ds[i]
    requires j < |ds|
    ensures Concat(ds, key) == Concat(ds[..j], key) + ds[j][key] + Concat(ds[j + 1..], key)
  {
    var n := |ds| - 1;
    if j == n {
      assert ds[..n] == ds[..j];
      assert ds[j + 1..] == [];
    } else {
      var init := ds[..n];
      ConcatLayout(init, key, j);
      assert init[..j] == ds[..j];
      assert init[j + 1..] == ds[j + 1..][..|ds[j + 1..]| - 1];
      assert ds[j + 1..][|ds[j + 1..]| - 1] == ds[n];
    }
  }

  /** Sum of one key's column lengths over the regions. */
  function TotalRows(ds: seq<Columns>, key: string): nat
    requires forall j | 0 <= j < |ds| :: key in ds[j]
  {
    if ds == [] then 0 else TotalRows(ds[..|ds| - 1], key) + |ds[|ds| - 1][key]|
  }

  lemma {:induction false} ConcatLength(ds: seq<Columns>, key: string)
    requires forall j | 0 <= j < |ds| :: key in ds[j]
    ensures |Concat(ds, key)| == TotalRows(ds, key)
  {
    if ds != [] {
      ConcatLength(ds[..|ds| - 1], key);
    }
  }

  /** Every output column is the concatenation of the fetched regions' columns, in request order. */
  lemma GetDictColumns(s: CacheState, regions: seq<string>, archives: seq<Archive>)
    requires GetDict(s, regions, archives).result.Ok?
    ensures var g := Gather(s, Requested(regions), archives);
            var out := GetDict(s, regions, archives).result.value;
            && g.result.Ok?
            && |g.result.value| == |Requested(regions)|
            && forall key | key in OutputKeys ::
                 && out[key] == Concat(g.result.value, key)
                 && |out[key]| == TotalRows(g.result.value, key)
  {
    GetDictConcat(s, regions, archives);
    ConcatLengths(Gather(s, Requested(regions), archives).result.value);
  }

  /** `ConcatLength` for every output key at once. */
  lemma ConcatLengths(ds: seq<Columns>)
    requires forall j | 0 <= j < |ds| :: ds[j].Keys >= OutputKeys
    ensures forall key | key in OutputKeys :: |Concat(ds, key)| == TotalRows(ds, key)
  {
    forall key | key in OutputKeys ensures |Concat(ds, key)| == TotalRows(ds, key) {
      ConcatLength(ds, key);
    }
  }

  /** A successful call means the loop succeeded, and each output column is the concatenation of that key. */
  lemma GetDictConcat(s: CacheState, regions: seq<string>, archives: seq<Archive>)
    requires GetDict(s, regions, archives).result.Ok?
    ensures var g := Gather(s, Requested(regions), archives);
            && g.result.Ok?
            && |g.result.value| == |Requested(regions)|
            && forall key | key in OutputKeys ::
                 && key in GetDict(s, regions, archives).result.value
                 && GetDict(s, regions, archives).result.value[key] == Concat(g.result.value, key)
  {
    var g := Gather(s, Requested(regions), archives);
    assert g.result.Ok?;
    assert GetDict(s, regions, archives).result.value == ConcatAll(g.result.value);
  }

  // ---------------------------------------------------------------------
  // The "region" column.

  /** One block per requested region: its name, once per row of its `p1` column. */
  function RegionBlocks(regions: seq<string>, ds: seq<Columns>): seq<Value>
    requires |regions| == |ds|
    requires forall j | 0 <= j < |ds| :: HeaderAt(0).name in ds[j]
  {
    if ds == [] then []
    else
      var n := |ds| - 1;
      RegionBlocks(regions[..n], ds[..n]) + Repeat(Str(regions[n]), |ds[n][HeaderAt(0).name]|)
  }

  /** Gathering from a coherent cache leaves it coherent. */
  lemma {:induction false} GatherStaysCoherent(s: CacheState, regions: seq<string>, archives: seq<Archive>)
    requires Coherent(s)
    ensures Coherent(Gather(s, regions, archives).state)
  {
    if regions != [] {
      var n := |regions| - 1;
      GatherStaysCoherent(s, regions[..n], archives);
      GatherStep(s, regions, archives);
      var prev := Gather(s, regions[..n], archives);
      if prev.result.Ok? {
        FetchCoherent(prev.state, regions[n], archives);
      }
    }
  }

  /** Each column set is well formed for the region at the same position. */
  predicate AllWellFormed(regions: seq<string>, ds: seq<Columns>)
    requires |regions| == |ds|
  {
    forall j | 0 <= j < |regions| :: WellFormed(ds[j], regions[j])
  }

  lemma AllWellFormedSnoc(regions: seq<string>, ds: seq<Columns>)
    requires |regions| == |ds| > 0
    requires AllWellFormed(regions[..|regions| - 1], ds[..|ds| - 1])
    requires WellFormed(ds[|ds| - 1], regions[|regions| - 1])
    ensures AllWellFormed(regions, ds)
  {
    var n := |regions| - 1;
    assert forall j | 0 <= j < n :: regions[..n][j] == regions[j] && ds[..n][j] == ds[j];
  }

  /** From a coherent cache, the last region's fetch in the loop gives a well-formed column set. */
  lemma GatherLastWellFormed(s: CacheState, regions: seq<string>, archives: seq<Archive>)
    requires Coherent(s) && regions != []
    requires Gather(s, regions[..|regions| - 1], archives).result.Ok?
    ensures var f := Fetch(Gather(s, regions[..|regions| - 1], archives).state, regions[|regions| - 1], archives);
            f.result.Ok? ==> WellFormed(f.result.value, regions[|regions| - 1])
  {
    var n := |regions| - 1;
    GatherStaysCoherent(s, regions[..n], archives);
    FetchCoherent(Gather(s, regions[..n], archives).state, regions[n], archives);
  }

  /** From a coherent cache, every gathered column set is well formed for its region. */
  lemma {:induction false} GatherCoherent(s: CacheState, regions: seq<string>, archives: seq<Archive>)
    requires Coherent(s)
    ensures var g := Gather(s, regions, archives);
            g.result.Ok? ==> AllWellFormed(regions, g.result.value)
  {
    if regions != [] {
      var n := |regions| - 1;
      GatherCoherent(s, regions[..n], archives);
      GatherStep(s, regions, archives);
      var prev := Gather(s, regions[..n], archives);
      var g := Gather(s, regions, archives);
      if prev.result.Ok? && g.result.Ok? {
        GatherLastWellFormed(s, regions, archives);
        assert g.result.value[..n] == prev.result.value;
        AllWellFormedSnoc(regions, g.result.value);
      }
    }
  }

  lemma {:induction false} ConcatRegionColumn(regions: seq<string>, ds: seq<Columns>)
    requires |regions| == |ds|
    requires forall j | 0 <= j < |ds| :: WellFormed(ds[j], regions[j])
    requires forall j | 0 <= j < |ds| :: RegionColumn in ds[j] && HeaderAt(0).name in ds[j]
    ensures Concat(ds, RegionColumn) == RegionBlocks(regions, ds)
  {
    if ds != [] {
      var n := |ds| - 1;
      ConcatRegionColumn(regions[..n], ds[..n]);
    }
  }

  /**
   * With a coherent cache, the combined "region" column is one block per
   * requested region, in request order, each as long as that region's
   * `p1` column: for `["JHM", "PHA"]`, the JHM rows first, then the PHA rows.
   */
  lemma GetDictRegionColumn(s: CacheState, regions: seq<string>, archives: seq<Archive>)
    requires Coherent(s)
    requires GetDict(s, regions, archives).result.Ok?
    ensures var ds := Gather(s, Requested(regions), archives).result.value;
            var out := GetDict(s, regions, archives).result.value;
            && |ds| == |Requested(regions)|
            && out[RegionColumn] == RegionBlocks(Requested(regions), ds)
            && |out[RegionColumn]| == |out[HeaderAt(0).name]|
  {
    var req := Requested(regions);
    var ds := Gather(s, req, archives).result.value;
    GatherCoherent(s, req, archives);
    ConcatRegionColumn(req, ds);
    ConcatLength(ds, RegionColumn);
    ConcatLength(ds, HeaderAt(0).name);
    SameTotals(req, ds);
  }

  lemma {:induction false} SameTotals(regions: seq<string>, ds: seq<Columns>)
    requires |regions| == |ds|
    requires forall j | 0 <= j < |ds| :: WellFormed(ds[j], regions[j])
    requires forall j | 0 <= j < |ds| :: RegionColumn in ds[j] && HeaderAt(0).name in ds[j]
    ensures TotalRows(ds, RegionColumn) == TotalRows(ds, HeaderAt(0).name)
  {
    if ds != [] {
      SameTotals(regions[..|ds| - 1], ds[..|ds| - 1]);
    }
  }

  // ---------------------------------------------------------------------
  // Rectangular column sets.

  /** Every column is as long as the "region" column. */
  predicate Rectangular(d: Columns) {
    && RegionColumn in d
    && forall key | key in OutputKeys :: key in d && |d[key]| == |d[RegionColumn]|
  }

  lemma {:induction false} TotalsAgree(ds: seq<Columns>, key: string)
    requires forall j | 0 <= j < |ds| :: Rectangular(ds[j])
    requires key in OutputKeys
    requires forall j | 0 <= j < |ds| :: RegionColumn in ds[j] && key in ds[j]
    ensures TotalRows(ds, key) == TotalRows(ds, RegionColumn)
  {
    if ds != [] {
      TotalsAgree(ds[..|ds| - 1], key);
    }
  }

  /** If every region's column set is rectangular, so is the combined one. */
  lemma GetDictRectangular(s: CacheState, regions: seq<string>, archives: seq<Archive>)
    requires GetDict(s, regions, archives).result.Ok?
    requires var g := Gather(s, Requested(regions), archives);
             g.result.Ok? && forall j | 0 <= j < |g.result.value| :: Rectangular(g.result.value[j])
    ensures Rectangular(GetDict(s, regions, archives).result.value)
  {
    var ds := Gather(s, Requested(regions), archives).result.value;
    GetDictConcat(s, regions, archives);
    ConcatLengths(ds);
    ConcatRectangular(ds);
  }

  /** Rectangular column sets have one common total length across all keys. */
  lemma ConcatRectangular(ds: seq<Columns>)
    requires forall j | 0 <= j < |ds| :: ds[j].Keys >= OutputKeys && Rectangular(ds[j])
    ensures forall key | key in OutputKeys :: TotalRows(ds, key) == TotalRows(ds, RegionColumn)
  {
    forall key | key in OutputKeys ensures TotalRows(ds, key) == TotalRows(ds, RegionColumn) {
      TotalsAgree(ds, key);
    }
  }

  // ---------------------------------------------------------------------
  // Cache writes and repeated calls.

  /** Every file written by `effects` was absent from `before` and is present in `after`. */
  predicate WritesFresh(before: CacheState, after: CacheState, effects: seq<Effect>) {
    forall e | e in effects && e.WriteCache? :: e.file !in before.disk && e.file in after.disk
  }

  /** No cache-file write in `effects` is repeated later in it. */
  predicate WritesOnce(effects: seq<Effect>) {
    forall i, j | 0 <= i < j < |effects| && effects[i].WriteCache? :: effects[i] != effects[j]
  }

  lemma FetchWritesOnce(s: CacheState, region: string, archives: seq<Archive>)
    ensures WritesOnce(Fetch(s, region, archives).effects)
  {
  }

  /** Two write-once runs stay write-once when the first run's files are all in `mid` and the second's all are not. */
  lemma WritesOnceAppend(a: seq<Effect>, b: seq<Effect>, mid: CacheState)
    requires WritesOnce(a) && WritesOnce(b)
    requires forall e | e in a && e.WriteCache? :: e.file in mid.disk
    requires forall e | e in b && e.WriteCache? :: e.file !in mid.disk
    ensures WritesOnce(a + b)
  {
    var effects := a + b;
    forall i, j | 0 <= i < j < |effects| && effects[i].WriteCache?
      ensures effects[i] != effects[j]
    {
      if j < |a| {
        assert effects[i] == a[i] && effects[j] == a[j];
      } else if i < |a| {
        assert effects[i] == a[i] && effects[j] == b[j - |a|];
      } else {
        assert effects[i] == b[i - |a|] && effects[j] == b[j - |a|];
      }
    }
  }

  /** Every cache file written during `get_dict`'s loop was absent before it and is present after it. */
  lemma {:induction false} GatherWritesFresh(s: CacheState, regions: seq<string>, archives: seq<Archive>)
    ensures var g := Gather(s, regions, archives);
            WritesFresh(s, g.state, g.effects)
  {
    if regions != [] {
      var n := |regions| - 1;
      GatherWritesFresh(s, regions[..n], archives);
      GatherStep(s, regions, archives);
      var prev := Gather(s, regions[..n], archives);
      if prev.result.Ok? {
        var f := Fetch(prev.state, regions[n], archives);
        forall e | e in prev.effects + f.effects && e.WriteCache?
          ensures e.file !in s.disk && e.file in f.state.disk
        {
          if e in prev.effects {
            assert e.file in prev.state.disk;
          } else {
            assert e.file !in prev.state.disk;
          }
        }
      }
    }
  }

  /** No cache file is written twice during `get_dict`'s loop. */
  lemma {:induction false} GatherWritesOnce(s: CacheState, regions: seq<string>, archives: seq<Archive>)
    ensures WritesOnce(Gather(s, regions, archives).effects)
  {
    if regions != [] {
      var n := |regions| - 1;
      GatherWritesOnce(s, regions[..n], archives);
      GatherStep(s, regions, archives);
      var prev := Gather(s, regions[..n], archives);
      if prev.result.Ok? {
        GatherWritesFresh(s, regions[..n], archives);
        FetchWritesOnce(prev.state, regions[n], archives);
        WritesOnceAppend(prev.effects, Fetch(prev.state, regions[n], archives).effects, prev.state);
      }
    }
  }

  /** Each region's cache file holds exactly the column set listed for it. */
  predicate Backed(st: CacheState, regions: seq<string>, ds: seq<Columns>)
    requires |regions| == |ds|
  {
    forall j | 0 <= j < |regions| ::
      CacheFileName(regions[j]) in st.disk && st.disk[CacheFileName(regions[j])] == Pickled(ds[j])
  }

  lemma BackedExtends(st: CacheState, st2: CacheState, regions: seq<string>, ds: seq<Columns>)
    requires |regions| == |ds| && Backed(st, regions, ds) && Extends(st, st2)
    ensures Backed(st2, regions, ds)
  {
    forall j | 0 <= j < |regions|
      ensures CacheFileName(regions[j]) in st2.disk && st2.disk[CacheFileName(regions[j])] == Pickled(ds[j])
    {
      assert CacheFileName(regions[j]) in st.disk;
    }
  }

  lemma BackedSnoc(st: CacheState, regions: seq<string>, ds: seq<Columns>)
    requires |regions| == |ds| > 0
    requires Backed(st, regions[..|regions| - 1], ds[..|ds| - 1])
    requires CacheFileName(regions[|regions| - 1]) in st.disk
    requires st.disk[CacheFileName(regions[|regions| - 1])] == Pickled(ds[|ds| - 1])
    ensures Backed(st, regions, ds)
  {
    var n := |regions| - 1;
    forall j | 0 <= j < n
      ensures CacheFileName(regions[j]) in st.disk && st.disk[CacheFileName(regions[j])] == Pickled(ds[j])
    {
      assert regions[j] == regions[..n][j] && ds[j] == ds[..n][j];
    }
  }

  lemma BackedPrefix(st: CacheState, regions: seq<string>, ds: seq<Columns>)
    requires |regions| == |ds| > 0 && Backed(st, regions, ds)
    ensures Backed(st, regions[..|regions| - 1], ds[..|ds| - 1])
    ensures CacheFileName(regions[|regions| - 1]) in st.disk
    ensures st.disk[CacheFileName(regions[|regions| - 1])] == Pickled(ds[|ds| - 1])
  {
    var n := |regions| - 1;
    forall j | 0 <= j < n
      ensures CacheFileName(regions[..n][j]) in st.disk && st.disk[CacheFileName(regions[..n][j])] == Pickled(ds[..n][j])
    {
      assert regions[..n][j] == regions[j] && ds[..n][j] == ds[j];
    }
  }

  /** Gathering keeps every memory entry backed by a file with the same data. */
  lemma {:induction false} GatherKeepsMemBacked(s: CacheState, regions: seq<string>, archives: seq<Archive>)
    requires MemBacked(s)
    ensures MemBacked(Gather(s, regions, archives).state)
  {
    if regions != [] {
      var n := |regions| - 1;
      GatherKeepsMemBacked(s, regions[..n], archives);
      GatherStep(s, regions, archives);
      var prev := Gather(s, regions[..n], archives);
      if prev.result.Ok? {
        FetchBacks(prev.state, regions[n], archives);
      }
    }
  }

  /** Under `MemBacked`, each gathered region's file holds exactly what was returned for it. */
  lemma {:induction false} GatherStoresFiles(s: CacheState, regions: seq<string>, archives: seq<Archive>)
    requires MemBacked(s)
    ensures var g := Gather(s, regions, archives);
            g.result.Ok? ==> Backed(g.state, regions, g.result.value)
  {
    if regions != [] {
      var n := |regions| - 1;
      GatherStoresFiles(s, regions[..n], archives);
      GatherStep(s, regions, archives);
      var prev := Gather(s, regions[..n], archives);
      var g := Gather(s, regions, archives);
      if prev.result.Ok? && g.result.Ok? {
        GatherKeepsMemBacked(s, regions[..n], archives);
        FetchBacks(prev.state, regions[n], archives);
        var f := Fetch(prev.state, regions[n], archives);
        BackedExtends(prev.state, f.state, regions[..n], prev.result.value);
        assert g.result.value[..n] == prev.result.value;
        BackedSnoc(g.state, regions, g.result.value);
      }
    }
  }

  /**
   * With every requested region's file holding a complete column set,
   * gathering only opens cache files and changes nothing.
   */
  lemma {:induction false} GatherReplay(s: CacheState, regions: seq<string>, archives: seq<Archive>, ds: seq<Columns>)
    requires MemBacked(s)
    requires |ds| == |regions|
    requires Backed(s, regions, ds)
    requires forall j | 0 <= j < |ds| :: ds[j].Keys >= OutputKeys
    ensures var g := Gather(s, regions, archives);
            && g.state == s
            && g.result == Ok(ds)
            && forall e | e in g.effects :: e.OpenCache?
  {
    if regions != [] {
      var n := |regions| - 1;
      BackedPrefix(s, regions, ds);
      assert forall j | 0 <= j < n :: ds[..n][j] == ds[j];
      GatherReplay(s, regions[..n], archives, ds[..n]);
      GatherStep(s, regions, archives);
      FetchReplay(s, regions[n], archives, ds[n]);
      assert MissingKey(ds[n]).None?;
      LastSplit(ds);
    }
  }

  /** A non-empty sequence is its prefix followed by its last element. */
  lemma LastSplit<T>(xs: seq<T>)
    requires xs != []
    ensures xs[..|xs| - 1] + [xs[|xs| - 1]] == xs
  {
  }

  /**
   * Calling `get_dict` again with the same regions returns the same columns
   * without downloading, parsing or writing anything: only cache files are
   * opened, and the cache is left as the first call left it.
   */
  lemma GetDictIdempotent(s: CacheState, regions: seq<string>, archives: seq<Archive>, later: seq<Archive>)
    requires MemBacked(s)
    requires GetDict(s, regions, archives).result.Ok?
    ensures var first := GetDict(s, regions, archives);
            var second := GetDict(first.state, regions, later);
            && second.result == first.result
            && second.state == first.state
            && forall e | e in second.effects :: e.OpenCache?
  {
    var req := Requested(regions);
    GatherKeepsMemBacked(s, req, archives);
    GatherStoresFiles(s, req, archives);
    var g := Gather(s, req, archives);
    GatherReplay(g.state, req, later, g.result.value);
  }

  // ---------------------------------------------------------------------
  // From the parses to the output.

  /** The column sets that parsing each of `regions` over `archives` gives, in order. */
  function ParseAll(regions: seq<string>, archives: seq<Archive>): (ds: seq<Columns>)
    requires forall j | 0 <= j < |regions| :: ParseRegion(regions[j], archives).result.Ok?
    ensures |ds| == |regions|
    ensures forall j | 0 <= j < |regions| :: Ok(ds[j]) == ParseRegion(regions[j], archives).result
  {
    if regions == [] then []
    else
      var n := |regions| - 1;
      ParseAll(regions[..n], archives) + [ParseRegion(regions[n], archives).result.value]
  }

  /** When everything cached came from parsing `archives`, the region loop keeps it so. */
  lemma {:induction false} GatherStaysParsed(s: CacheState, regions: seq<string>, archives: seq<Archive>)
    requires ParsedFrom(s, archives)
    ensures ParsedFrom(Gather(s, regions, archives).state, archives)
  {
    if regions != [] {
      var n := |regions| - 1;
      GatherStaysParsed(s, regions[..n], archives);
      GatherStep(s, regions, archives);
      var prev := Gather(s, regions[..n], archives);
      if prev.result.Ok? {
        FetchParsedFrom(prev.state, regions[n], archives);
      }
    }
  }

  /** In such a loop, the last region's fetch returns what its parse gives. */
  lemma GatherLastParsed(s: CacheState, regions: seq<string>, archives: seq<Archive>)
    requires ParsedFrom(s, archives) && regions != []
    requires Gather(s, regions[..|regions| - 1], archives).result.Ok?
    ensures var f := Fetch(Gather(s, regions[..|regions| - 1], archives).state, regions[|regions| - 1], archives);
            f.result.Ok? ==> f.result == ParseRegion(regions[|regions| - 1], archives).result
  {
    var n := |regions| - 1;
    GatherStaysParsed(s, regions[..n], archives);
    FetchParsedFrom(Gather(s, regions[..n], archives).state, regions[n], archives);
  }

  /**
   * When everything cached came from parsing `archives`, a successful region
   * loop returns exactly the parses of the requested regions, in request order.
   */
  lemma {:induction false} GatherParses(s: CacheState, regions: seq<string>, archives: seq<Archive>)
    requires ParsedFrom(s, archives)
    ensures var g := Gather(s, regions, archives);
            g.result.Ok? ==>
              && (forall j | 0 <= j < |regions| :: ParseRegion(regions[j], archives).result.Ok?)
              && g.result.value == ParseAll(regions, archives)
  {
    if regions != [] {
      var n := |regions| - 1;
      GatherParses(s, regions[..n], archives);
      GatherStep(s, regions, archives);
      var prev := Gather(s, regions[..n], archives);
      var g := Gather(s, regions, archives);
      if prev.result.Ok? && g.result.Ok? {
        GatherLastParsed(s, regions, archives);
        var last := Fetch(prev.state, regions[n], archives).result;
        assert last.Ok? && last == ParseRegion(regions[n], archives).result;
        forall j | 0 <= j < |regions| ensures ParseRegion(regions[j], archives).result.Ok? {
          if j < n {
            assert regions[..n][j] == regions[j];
            assert ParseRegion(regions[..n][j], archives).result.Ok?;
          } else {
            assert j == n;
          }
        }
        assert g.result.value == prev.result.value + [last.value];
      }
    }
  }

  /**
   * `get_dict` on a fresh `DataDownloader`: every requested region parses,
   * and each output column is that key's parsed columns concatenated in
   * request order, whichever cache tier answered each region.
   */
  lemma GetDictFromParses(regions: seq<string>, archives: seq<Archive>)
    requires GetDict(FreshCache, regions, archives).result.Ok?
    ensures forall j | 0 <= j < |Requested(regions)| :: ParseRegion(Requested(regions)[j], archives).result.Ok?
    ensures forall key | key in OutputKeys ::
              && key in GetDict(FreshCache, regions, archives).result.value
              && GetDict(FreshCache, regions, archives).result.value[key] == Concat(ParseAll(Requested(regions), archives), key)
  {
    GatherParses(FreshCache, Requested(regions), archives);
    GetDictConcat(FreshCache, regions, archives);
  }

  /**
   * When everything cached came from parsing `archives` and every requested
   * region parses, the region loop succeeds with exactly those parses.
   */
  lemma {:induction false} GatherSucceeds(s: CacheState, regions: seq<string>, archives: seq<Archive>)
    requires ParsedFrom(s, archives)
    requires forall j | 0 <= j < |regions| :: ParseRegion(regions[j], archives).result.Ok?
    ensures Gather(s, regions, archives).result == Ok(ParseAll(regions, archives))
  {
    if regions != [] {
      var n := |regions| - 1;
      assert forall j | 0 <= j < n :: regions[..n][j] == regions[j];
      GatherSucceeds(s, regions[..n], archives);
      GatherStaysParsed(s, regions[..n], archives);
      var prev := Gather(s, regions[..n], archives);
      FetchParsedFrom(prev.state, regions[n], archives);
      var d := ParseRegion(regions[n], archives).result.value;
      assert Fetch(prev.state, regions[n], archives).result == Ok(d);
      assert MissingKey(d).None?;
      assert GatherNext(prev, regions[n], archives).result == Ok(prev.result.value + [d]);
    }
  }

  /** A fresh `DataDownloader` has nothing cached, so nothing in it contradicts the parses. */
  lemma FreshParsedFrom(archives: seq<Archive>)
    ensures ParsedFrom(FreshCache, archives)
  {
  }

  /** When every requested region parses, `get_dict` from such a cache returns their concatenation. */
  lemma GetDictOfParses(s: CacheState, regions: seq<string>, archives: seq<Archive>)
    requires ParsedFrom(s, archives)
    requires forall j | 0 <= j < |Requested(regions)| :: ParseRegion(Requested(regions)[j], archives).result.Ok?
    ensures GetDict(s, regions, archives).result
              == Ok(ConcatAll(ParseAll(Requested(regions), archives)))
  {
    GatherSucceeds(s, Requested(regions), archives);
    GetDictOfGather(s, regions, archives, ParseAll(Requested(regions), archives));
  }

  /** A loop that gathered `ds` makes `get_dict` return each key concatenated over `ds`. */
  lemma GetDictOfGather(s: CacheState, regions: seq<string>, archives: seq<Archive>, ds: seq<Columns>)
    requires Gather(s, Requested(regions), archives).result == Ok(ds)
    ensures forall j | 0 <= j < |ds| :: ds[j].Keys >= OutputKeys
    ensures GetDict(s, regions, archives).result == Ok(ConcatAll(ds))
  {
  }

  /**
   * `get_dict` on a fresh `DataDownloader` succeeds exactly when every
   * requested region parses, and then returns each key's parsed columns
   * concatenated in request order.
   */
  lemma GetDictSucceeds(regions: seq<string>, archives: seq<Archive>)
    ensures (GetDict(FreshCache, regions, archives).result.Ok?
             <==> forall j | 0 <= j < |Requested(regions)| :: ParseRegion(Requested(regions)[j], archives).result.Ok?)
    ensures (forall j | 0 <= j < |Requested(regions)| :: ParseRegion(Requested(regions)[j], archives).result.Ok?) ==>
              GetDict(FreshCache, regions, archives).result
                == Ok(ConcatAll(ParseAll(Requested(regions), archives)))
  {
    var req := Requested(regions);
    if forall j | 0 <= j < |req| :: ParseRegion(req[j], archives).result.Ok? {
      FreshParsedFrom(archives);
      GetDictOfParses(FreshCache, regions, archives);
    } else if GetDict(FreshCache, regions, archives).result.Ok? {
      GetDictFromParses(regions, archives);
    }
  }
}
