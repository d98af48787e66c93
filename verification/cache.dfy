/**
 * The per-region read-through cache of `get_dict` (download.py:304-329):
 * the in-memory dict `mem_cache`, then one gzip+pickle file per region, and
 * only when that file does not exist a fresh `parse_region_data`, whose
 * result is written to the file and stored in memory.
 */
module Cache {
  import opened Results
  import opened Schema
  import opened Io
  import opened RegionParser

  /** A cache file on disk: a loadable pickle, or one whose reading raises (corrupt, unreadable). */
  datatype CacheFile = Pickled(data: Columns) | Unreadable

  /** `mem_cache`, and the cache folder as file name to file; an absent key is an absent file. */
  datatype CacheState = CacheState(mem: map<string, Columns>, disk: map<string, CacheFile>)

  datatype Fetched = Fetched(state: CacheState, result: Result<Columns, Error>, effects: seq<Effect>)

  /** `self.cache_filename.format(region)` with the default template `data_{}.pkl.gz`. */
  function CacheFileName(region: string): (file: string)
    ensures |file| == |region| + 12
  {
    "data_" + region + ".pkl.gz"
  }

  /** Different regions never share a cache file. */
  lemma CacheFileNameInjective(a: string, b: string)
    requires CacheFileName(a) == CacheFileName(b)
    ensures a == b
  {
    var fa, fb := CacheFileName(a), CacheFileName(b);
    assert |a| == |b|;
    assert a == fa[5..5 + |a|];
    assert b == fb[5..5 + |b|];
  }

  /** `t` keeps every memory entry and every file of `s` as it was. */
  predicate Extends(s: CacheState, t: CacheState) {
    && (forall r | r in s.mem :: r in t.mem && t.mem[r] == s.mem[r])
    && (forall f | f in s.disk :: f in t.disk && t.disk[f] == s.disk[f])
  }

  /** Only the parse path stores anything: the result goes to memory and to its file. */
  function Store(s: CacheState, region: string, d: Columns): (t: CacheState)
    ensures region !in s.mem && CacheFileName(region) !in s.disk ==> Extends(s, t)
  {
    CacheState(s.mem[region := d], s.disk[CacheFileName(region) := Pickled(d)])
  }

  /**
   * Obtain one region's column set. A memory hit returns at once; otherwise
   * the cache file is opened: a loadable file is returned without touching
   * memory, an unreadable one raises, and only an absent one leads to
   * `parse_region_data`, whose result is written to the file and stored in
   * memory.
   */
  function Fetch(s: CacheState, region: string, archives: seq<Archive>): (f: Fetched)
    ensures region in s.mem ==> f == Fetched(s, Ok(s.mem[region]), [])
    ensures region !in s.mem ==> |f.effects| > 0 && f.effects[0] == OpenCache(CacheFileName(region))
    ensures region !in s.mem && CacheFileName(region) in s.disk ==>
              && f.state == s
              && f.effects == [OpenCache(CacheFileName(region))]
              && f.result == (match s.disk[CacheFileName(region)]
                              case Pickled(d) => Ok(d)
                              case Unreadable => Err(UnreadableCache(CacheFileName(region))))
    ensures (Download in f.effects)
              <==> (region !in s.mem && CacheFileName(region) !in s.disk && RegionCode(region).Some?)
    ensures f.state == s || (f.result.Ok? && f.state == Store(s, region, f.result.value))
    ensures f.state != s <==> WriteCache(CacheFileName(region)) in f.effects
    ensures forall k | 0 <= k < |f.effects| - 1 :: !f.effects[k].WriteCache?
    ensures forall e | e in f.effects && e.WriteCache? ::
              e.file == CacheFileName(region) && e.file !in s.disk && e.file in f.state.disk
    ensures Extends(s, f.state)
  {
    if region in s.mem then
      Fetched(s, Ok(s.mem[region]), [])
    else if CacheFileName(region) in s.disk then
      var file := CacheFileName(region);
      match s.disk[file]
      case Pickled(d) => Fetched(s, Ok(d), [OpenCache(file)])
      case Unreadable => Fetched(s, Err(UnreadableCache(file)), [OpenCache(file)])
    else
      ParseAndStore(s, region, ParseRegion(region, archives))
  }

  /**
   * The `FileNotFoundError` path, given what `parse_region_data` did: the
   * absent file was opened first, and a successful parse is written to the
   * file and stored in memory.
   */
  function ParseAndStore(s: CacheState, region: string, p: Parsed): (f: Fetched)
    requires region !in s.mem && CacheFileName(region) !in s.disk
    requires forall e | e in p.effects :: !e.WriteCache?
    ensures |f.effects| > 0 && f.effects[0] == OpenCache(CacheFileName(region))
    ensures f.result == p.result
    ensures (Download in f.effects) <==> (Download in p.effects)
    ensures f.state == s || (f.result.Ok? && f.state == Store(s, region, f.result.value))
    ensures f.state != s <==> WriteCache(CacheFileName(region)) in f.effects
    ensures forall k | 0 <= k < |f.effects| - 1 :: !f.effects[k].WriteCache?
    ensures forall e | e in f.effects && e.WriteCache? :: e.file == CacheFileName(region) && e.file in f.state.disk
    ensures Extends(s, f.state)
    ensures |f.effects| > |p.effects| && f.effects[1..1 + |p.effects|] == p.effects
    ensures p.result.Err? ==> f.state == s
    ensures p.result.Ok? ==>
              && f.state == Store(s, region, p.result.value)
              && f.effects[|f.effects| - 1] == WriteCache(CacheFileName(region))
  {
    var file := CacheFileName(region);
    match p.result
    case Err(e) => Fetched(s, Err(e), [OpenCache(file)] + p.effects)
    case Ok(d) => Fetched(Store(s, region, d), Ok(d), [OpenCache(file)] + p.effects + [WriteCache(file)])
  }

  /**
   * When both tiers miss, the fetch is the parse: it returns what
   * `parse_region_data` returns, after opening the absent file and with the
   * parse's own effects next; a successful parse is stored in memory and in
   * its file, and writing that file is the last effect.
   */
  lemma FetchMiss(s: CacheState, region: string, archives: seq<Archive>)
    requires region !in s.mem && CacheFileName(region) !in s.disk
    ensures var f, p := Fetch(s, region, archives), ParseRegion(region, archives);
            && f.result == p.result
            && |f.effects| > |p.effects| && f.effects[1..1 + |p.effects|] == p.effects
            && (f.result.Err? ==> f.state == s)
            && (f.result.Ok? ==>
                  && f.state == Store(s, region, f.result.value)
                  && f.effects[|f.effects| - 1] == WriteCache(CacheFileName(region)))
  {
    var p := ParseRegion(region, archives);
    assert Fetch(s, region, archives) == ParseAndStore(s, region, p);
  }

  /**
   * Asking again returns the same column set without parsing, downloading or
   * writing, whatever the archives look like by then: the first answer was
   * either a memory hit, a file hit, or a parse that stored its result.
   */
  lemma FetchIdempotent(s: CacheState, region: string, archives: seq<Archive>, later: seq<Archive>)
    requires Fetch(s, region, archives).result.Ok?
    ensures var f1 := Fetch(s, region, archives);
            var f2 := Fetch(f1.state, region, later);
            && f2.result == f1.result
            && f2.state == f1.state
            && forall e | e in f2.effects :: e.OpenCache?
  {
  }

  /**
   * A parsed region survives a restart: a fresh process with an empty memory
   * cache and the files left behind loads the same column set from its file.
   */
  lemma CacheFileRoundTrip(s: CacheState, region: string, archives: seq<Archive>, later: seq<Archive>)
    requires region !in s.mem && CacheFileName(region) !in s.disk
    requires Fetch(s, region, archives).result.Ok?
    ensures var f1 := Fetch(s, region, archives);
            Fetch(CacheState(map[], f1.state.disk), region, later)
              == Fetched(CacheState(map[], f1.state.disk), f1.result, [OpenCache(CacheFileName(region))])
  {
  }

  /** Every stored column set, in memory or on disk, has the shape a parse of its region gives. */
  ghost predicate Coherent(s: CacheState) {
    && (forall r | r in s.mem :: WellFormed(s.mem[r], r))
    && (forall r | CacheFileName(r) in s.disk && s.disk[CacheFileName(r)].Pickled? ::
          WellFormed(s.disk[CacheFileName(r)].data, r))
  }

  /** Fetching keeps the cache coherent and, from a coherent cache, returns a well-formed column set. */
  lemma FetchCoherent(s: CacheState, region: string, archives: seq<Archive>)
    requires Coherent(s)
    ensures var f := Fetch(s, region, archives);
            && Coherent(f.state)
            && (f.result.Ok? ==> WellFormed(f.result.value, region))
  {
    var f := Fetch(s, region, archives);
    if f.state != s {
      forall r | CacheFileName(r) in f.state.disk && f.state.disk[CacheFileName(r)].Pickled?
        ensures WellFormed(f.state.disk[CacheFileName(r)].data, r)
      {
        if CacheFileName(r) == CacheFileName(region) {
          CacheFileNameInjective(r, region);
        }
      }
    }
  }

  /**
   * Every memory entry is backed by its file holding the same column set.
   * True of a fresh `DataDownloader` (empty memory), and kept by `Fetch`
   * because memory is only filled on the path that writes the file.
   */
  predicate MemBacked(s: CacheState) {
    forall r | r in s.mem :: CacheFileName(r) in s.disk && s.disk[CacheFileName(r)] == Pickled(s.mem[r])
  }

  /**
   * Under `MemBacked`, a region whose file holds `d` is fetched as `d`,
   * from memory or from the file, with nothing changed and at most the file
   * opened.
   */
  lemma FetchReplay(s: CacheState, region: string, archives: seq<Archive>, d: Columns)
    requires MemBacked(s)
    requires CacheFileName(region) in s.disk && s.disk[CacheFileName(region)] == Pickled(d)
    ensures var f := Fetch(s, region, archives);
            && f.state == s
            && f.result == Ok(d)
            && forall e | e in f.effects :: e.OpenCache?
  {
  }

  /**
   * Under `MemBacked`, a successful fetch leaves the region's file holding
   * the returned column set, and keeps `MemBacked`.
   */
  lemma FetchBacks(s: CacheState, region: string, archives: seq<Archive>)
    requires MemBacked(s)
    ensures var f := Fetch(s, region, archives);
            && MemBacked(f.state)
            && (f.result.Ok? ==> CacheFileName(region) in f.state.disk
                                 && f.state.disk[CacheFileName(region)] == Pickled(f.result.value))
  {
    var f := Fetch(s, region, archives);
    if f.state != s {
      forall r | r in f.state.mem
        ensures CacheFileName(r) in f.state.disk && f.state.disk[CacheFileName(r)] == Pickled(f.state.mem[r])
      {
        if r != region && CacheFileName(r) == CacheFileName(region) {
          CacheFileNameInjective(r, region);
        }
      }
    }
  }

  /** A fresh `DataDownloader` over an empty cache folder: no memory entry, no file. */
  const FreshCache: CacheState := CacheState(map[], map[])

  /**
   * Everything cached is what a parse over `archives` gives: every memory
   * entry, and every cache file, which is also loadable.
   */
  ghost predicate ParsedFrom(s: CacheState, archives: seq<Archive>) {
    && (forall r | r in s.mem :: ParseRegion(r, archives).result == Ok(s.mem[r]))
    && (forall r | CacheFileName(r) in s.disk ::
          && ParseRegion(r, archives).result.Ok?
          && s.disk[CacheFileName(r)] == Pickled(ParseRegion(r, archives).result.value))
  }

  /**
   * When everything cached came from parsing `archives`, a fetch keeps it so
   * and returns exactly what `parse_region_data` gives, whichever tier answers.
   */
  lemma FetchParsedFrom(s: CacheState, region: string, archives: seq<Archive>)
    requires ParsedFrom(s, archives)
    ensures var f := Fetch(s, region, archives);
            && ParsedFrom(f.state, archives)
            && f.result == ParseRegion(region, archives).result
  {
    var f := Fetch(s, region, archives);
    if region !in s.mem && CacheFileName(region) !in s.disk {
      FetchMiss(s, region, archives);
      if f.result.Ok? {
        forall r | CacheFileName(r) in f.state.disk
          ensures && ParseRegion(r, archives).result.Ok?
                  && f.state.disk[CacheFileName(r)] == Pickled(ParseRegion(r, archives).result.value)
        {
          if CacheFileName(r) == CacheFileName(region) {
            CacheFileNameInjective(r, region);
          }
        }
      }
    } else if region !in s.mem {
      assert CacheFileName(region) in s.disk;
    } else {
      assert f.result == Ok(s.mem[region]);
    }
  }
}
