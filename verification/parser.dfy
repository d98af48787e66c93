/**
 * `parse_region_data` (download.py:243-285): every archive's CSV member for
 * the region is read row by row, each row's tokens are zipped against the
 * header table, a row repeating an already seen `p1` identifier is dropped,
 * and the accepted values are gathered into one column per header plus the
 * constant "region" column.
 */
module RegionParser {
  import opened Results
  import opened Schema
  import opened Io

  /** A CSV row as `csv.reader` yields it: its tokens. */
  type Row = seq<string>

  /** A ZIP archive: member name to that member's rows, already decoded and split. */
  type Archive = map<string, seq<Row>>

  /** The loop state of `parse_region_data`: the column lists of `result` and the keys of `used_ids`. */
  datatype Acc = Acc(cols: seq<seq<Value>>, used: set<string>)

  /** Fresh state: 64 empty lists and no identifier seen. */
  const Start: Acc := Acc(EmptyColumns(HeaderCount), {})

  function EmptyColumns(n: nat): (r: seq<seq<Value>>)
    ensures |r| == n && forall i | 0 <= i < n :: r[i] == []
  {
    if n == 0 then [] else EmptyColumns(n - 1) + [[]]
  }

  function Repeat<T>(x: T, n: nat): (r: seq<T>)
    ensures |r| == n && forall k | 0 <= k < n :: r[k] == x
  {
    seq(n, k => x)
  }

  /** `zip(self.headers, row)` appends the i-th token, validated, to column i for every i < min(64, |row|). */
  function AppendRow(cols: seq<seq<Value>>, row: Row): (r: seq<seq<Value>>)
    requires |cols| == HeaderCount
    ensures |r| == HeaderCount
    ensures forall i | 0 <= i < HeaderCount :: cols[i] <= r[i] && |r[i]| == |cols[i]| + (if i < |row| then 1 else 0)
  {
    seq(HeaderCount, i requires 0 <= i < HeaderCount =>
      if i < |row| then cols[i] + [Validate(HeaderAt(i).kind, row[i])] else cols[i])
  }

  /** One row of the inner loop: an empty row or a repeated `p1` token adds nothing. */
  function StepRow(acc: Acc, row: Row): (r: Acc)
    requires |acc.cols| == HeaderCount
    ensures |r.cols| == HeaderCount
    ensures r.used == acc.used + (if |row| > 0 then {row[0]} else {})
    ensures forall i | 0 <= i < HeaderCount :: acc.cols[i] <= r.cols[i]
    ensures |r.cols[0]| == |acc.cols[0]| + (if |row| > 0 && row[0] !in acc.used then 1 else 0)
  {
    if |row| == 0 || row[0] in acc.used then acc
    else Acc(AppendRow(acc.cols, row), acc.used + {row[0]})
  }

  /** The rows of one or more members, consumed in order. */
  function StepRows(acc: Acc, rows: seq<Row>): (r: Acc)
    requires |acc.cols| == HeaderCount
    ensures |r.cols| == HeaderCount
    ensures acc.used <= r.used
    ensures forall i | 0 <= i < HeaderCount :: acc.cols[i] <= r.cols[i]
    ensures |r.cols[0]| <= |acc.cols[0]| + |rows|
  {
    if rows == [] then acc
    else StepRow(StepRows(acc, rows[..|rows| - 1]), rows[|rows| - 1])
  }

  // ---------------------------------------------------------------------
  // Reference definitions: which rows are kept, and what the columns hold.

  /** The `p1` tokens of all non-empty rows. */
  function Ids(rows: seq<Row>): set<string> {
    set j | 0 <= j < |rows| && |rows[j]| > 0 :: rows[j][0]
  }

  /** Row k is non-empty and no earlier non-empty row has its `p1` token. */
  predicate FirstOccurrence(rows: seq<Row>, k: nat)
    requires k < |rows|
  {
    |rows[k]| > 0 && forall j | 0 <= j < k :: |rows[j]| == 0 || rows[j][0] != rows[k][0]
  }

  /** The first occurrences, in order: the rows that survive deduplication. */
  function Kept(rows: seq<Row>): seq<Row> {
    if rows == [] then []
    else Kept(rows[..|rows| - 1]) + (if FirstOccurrence(rows, |rows| - 1) then [rows[|rows| - 1]] else [])
  }

  /** Column i of a set of accepted rows: the validated i-th token of each row that has one. */
  function Column(kept: seq<Row>, i: nat): seq<Value>
    requires i < HeaderCount
  {
    if kept == [] then []
    else
      var row := kept[|kept| - 1];
      Column(kept[..|kept| - 1], i) + (if i < |row| then [Validate(HeaderAt(i).kind, row[i])] else [])
  }

  function Columns(kept: seq<Row>): (r: seq<seq<Value>>)
    ensures |r| == HeaderCount
  {
    seq(HeaderCount, i requires 0 <= i < HeaderCount => Column(kept, i))
  }

  lemma IdsSnoc(rows: seq<Row>)
    requires |rows| > 0
    ensures Ids(rows) == Ids(rows[..|rows| - 1])
                         + (if |rows[|rows| - 1]| > 0 then {rows[|rows| - 1][0]} else {})
  {
    var init := rows[..|rows| - 1];
    assert forall j | 0 <= j < |init| :: init[j] == rows[j];
  }

  lemma FirstOccurrenceLast(rows: seq<Row>)
    requires |rows| > 0
    ensures FirstOccurrence(rows, |rows| - 1)
            <==> |rows[|rows| - 1]| > 0 && rows[|rows| - 1][0] !in Ids(rows[..|rows| - 1])
  {
    var init := rows[..|rows| - 1];
    assert forall j | 0 <= j < |init| :: init[j] == rows[j];
  }

  /**
   * The row loop of `parse_region_data` computes the reference columns:
   * starting fresh, the columns hold exactly the first occurrences of each
   * identifier, and `used_ids` holds every identifier met.
   */
  lemma {:induction false} StepRowsComputesColumns(rows: seq<Row>)
    ensures StepRows(Start, rows) == Acc(Columns(Kept(rows)), Ids(rows))
  {
    if rows == [] {
      assert Columns([]) == Start.cols;
    } else {
      var init, last := rows[..|rows| - 1], rows[|rows| - 1];
      StepRowsComputesColumns(init);
      IdsSnoc(rows);
      FirstOccurrenceLast(rows);
      var kept := Kept(rows);
      if FirstOccurrence(rows, |rows| - 1) {
        assert kept == Kept(init) + [last];
        assert kept[..|kept| - 1] == Kept(init);
        forall i | 0 <= i < HeaderCount
          ensures Columns(kept)[i] == AppendRow(Columns(Kept(init)), last)[i]
        {
          assert Columns(kept)[i] == Column(kept, i);
        }
      } else {
        assert kept == Kept(init);
      }
    }
  }

  /** The last row is consumed last. */
  lemma StepRowsSnoc(acc: Acc, rows: seq<Row>)
    requires |acc.cols| == HeaderCount && rows != []
    ensures StepRows(acc, rows) == StepRow(StepRows(acc, rows[..|rows| - 1]), rows[|rows| - 1])
  {
  }

  lemma {:induction false} StepRowsAppend(acc: Acc, a: seq<Row>, b: seq<Row>)
    requires |acc.cols| == HeaderCount
    ensures StepRows(acc, a + b) == StepRows(StepRows(acc, a), b)
  {
    if b == [] {
      assert a + b == a;
    } else {
      var ab, n := a + b, |b| - 1;
      assert ab[..|ab| - 1] == a + b[..n];
      assert ab[|ab| - 1] == b[n];
      StepRowsAppend(acc, a, b[..n]);
      StepRowsSnoc(acc, ab);
      StepRowsSnoc(StepRows(acc, a), b);
    }
  }

  // ---------------------------------------------------------------------
  // Deduplication.

  /** Every accepted row is non-empty, and no two accepted rows share a `p1` token. */
  lemma {:induction false} KeptIdsDistinct(rows: seq<Row>)
    ensures forall a | 0 <= a < |Kept(rows)| :: |Kept(rows)[a]| > 0
    ensures forall a, b | 0 <= a < b < |Kept(rows)| :: Kept(rows)[a][0] != Kept(rows)[b][0]
    ensures Ids(Kept(rows)) == Ids(rows)
  {
    if rows != [] {
      var init, last := rows[..|rows| - 1], rows[|rows| - 1];
      KeptIdsDistinct(init);
      IdsSnoc(rows);
      FirstOccurrenceLast(rows);
      var kept := Kept(rows);
      if FirstOccurrence(rows, |rows| - 1) {
        assert kept == Kept(init) + [last];
        assert kept[..|kept| - 1] == Kept(init);
        IdsSnoc(kept);
        forall a | 0 <= a < |Kept(init)|
          ensures kept[a][0] != last[0]
        {
          assert kept[a] == Kept(init)[a];
          assert Kept(init)[a][0] in Ids(Kept(init));
        }
      } else {
        assert kept == Kept(init);
      }
    }
  }

  /**
   * Reading more rows only appends to the accepted rows: the rows accepted
   * from a prefix of the input are a prefix of those accepted from all of
   * it, so accepted rows keep their input order.
   */
  lemma {:induction false} KeptPrefix(rows: seq<Row>, m: nat)
    requires m <= |rows|
    ensures Kept(rows[..m]) <= Kept(rows)
  {
    if m < |rows| {
      var n := |rows| - 1;
      KeptPrefix(rows[..n], m);
      assert rows[..n][..m] == rows[..m];
    } else {
      assert rows[..m] == rows;
    }
  }

  /** The accepted rows are exactly the first occurrences of their `p1` token. */
  lemma KeptIsFirstOccurrences(rows: seq<Row>)
    ensures |Kept(rows)| <= |rows|
    ensures forall k | 0 <= k < |rows| && FirstOccurrence(rows, k) :: rows[k] in Kept(rows)
    ensures forall r | r in Kept(rows) :: exists k | 0 <= k < |rows| :: FirstOccurrence(rows, k) && rows[k] == r
  {
    KeptHasFirstOccurrences(rows);
    KeptOnlyFirstOccurrences(rows);
  }

  /** Rows k < n are first occurrences in a prefix of length n exactly when they are in the whole input. */
  lemma FirstOccurrencePrefix(rows: seq<Row>, n: nat)
    requires n <= |rows|
    ensures forall k | 0 <= k < n :: rows[..n][k] == rows[k]
    ensures forall k | 0 <= k < n :: FirstOccurrence(rows[..n], k) == FirstOccurrence(rows, k)
  {
    assert forall k | 0 <= k < n :: rows[..n][k] == rows[k];
  }

  /** Every first occurrence is accepted. */
  lemma {:induction false} KeptHasFirstOccurrences(rows: seq<Row>)
    ensures |Kept(rows)| <= |rows|
    ensures forall k | 0 <= k < |rows| && FirstOccurrence(rows, k) :: rows[k] in Kept(rows)
  {
    if rows != [] {
      var n := |rows| - 1;
      var init, last := rows[..n], rows[n];
      KeptHasFirstOccurrences(init);
      FirstOccurrencePrefix(rows, n);
      var kept := Kept(rows);
      assert Kept(init) <= kept;
      forall k | 0 <= k < |rows| && FirstOccurrence(rows, k) ensures rows[k] in kept {
        if k < n {
          assert FirstOccurrence(init, k) && init[k] in Kept(init);
        } else {
          assert kept[|kept| - 1] == last;
        }
      }
    }
  }

  /** Every accepted row is a first occurrence. */
  lemma {:induction false} KeptOnlyFirstOccurrences(rows: seq<Row>)
    ensures forall r | r in Kept(rows) :: exists k | 0 <= k < |rows| :: FirstOccurrence(rows, k) && rows[k] == r
  {
    if rows != [] {
      var n := |rows| - 1;
      var init, last := rows[..n], rows[n];
      KeptOnlyFirstOccurrences(init);
      FirstOccurrencePrefix(rows, n);
      var kept := Kept(rows);
      var tail := if FirstOccurrence(rows, n) then [last] else [];
      assert kept == Kept(init) + tail;
      forall r | r in kept ensures exists k | 0 <= k < |rows| :: FirstOccurrence(rows, k) && rows[k] == r {
        if r in Kept(init) {
          var k :| 0 <= k < n && FirstOccurrence(init, k) && init[k] == r;
          assert FirstOccurrence(rows, k) && rows[k] == r;
        } else {
          assert r in tail;
          assert FirstOccurrence(rows, n) && rows[n] == r;
        }
      }
    }
  }

  /**
   * Deduplication compares raw tokens: " 1" is not a repeat of "1", while a
   * second "1" is dropped with the rest of its row; an empty row adds nothing.
   */
  lemma DedupRawTokens()
    ensures Kept([["1", "x"], [" 1"], ["1", "y"], []]) == [["1", "x"], [" 1"]]
  {
    var r0, r1, r2: Row := ["1", "x"], [" 1"], ["1", "y"];
    var p1, p2, p3 := [r0], [r0, r1], [r0, r1, r2];
    var rows := [r0, r1, r2, []];
    assert rows[..3] == p3 && p3[..2] == p2 && p2[..1] == p1 && p1[..0] == [];
    assert FirstOccurrence(p1, 0);
    assert Kept(p1) == [r0];
    assert r0[0] != r1[0] by { assert |r0[0]| != |r1[0]|; }
    assert FirstOccurrence(p2, 1);
    assert Kept(p2) == [r0, r1];
    assert !FirstOccurrence(p3, 2) by { assert p3[0][0] == p3[2][0]; }
    assert Kept(p3) == [r0, r1];
    assert !FirstOccurrence(rows, 3);
  }

  /** A short row is truncated, not skipped: its missing fields leave their columns shorter. */
  lemma ShortRowTruncated()
    ensures var kept: seq<Row> := [["1", "x"], ["2"]];
            |Column(kept, 0)| == 2 && |Column(kept, 1)| == 1
  {
    var kept: seq<Row> := [["1", "x"], ["2"]];
    assert kept[..1] == [["1", "x"]];
    assert kept[..1][..0] == [];
  }

  // ---------------------------------------------------------------------
  // Column shape.

  /** Column 0 (`p1`) gets one value per accepted row: every accepted row has a first token. */
  lemma {:induction false} FirstColumnLength(kept: seq<Row>)
    requires forall a | 0 <= a < |kept| :: |kept[a]| > 0
    ensures |Column(kept, 0)| == |kept|
  {
    if kept != [] {
      FirstColumnLength(kept[..|kept| - 1]);
    }
  }

  /** A column is as long as the number of accepted rows that reach it. */
  lemma {:induction false} ColumnLengthLongRows(kept: seq<Row>, i: nat)
    requires i < HeaderCount
    requires forall a | 0 <= a < |kept| :: |kept[a]| >= HeaderCount
    ensures |Column(kept, i)| == |kept|
  {
    if kept != [] {
      ColumnLengthLongRows(kept[..|kept| - 1], i);
    }
  }

  // ---------------------------------------------------------------------
  // Archives.

  /** The rows of `member` across all archives, in glob order. */
  function AllRows(archives: seq<Archive>, member: string): seq<Row>
    requires forall k | 0 <= k < |archives| :: member in archives[k]
  {
    if archives == [] then []
    else AllRows(archives[..|archives| - 1], member) + archives[|archives| - 1][member]
  }

  datatype Scanned = Scanned(result: Result<Acc, Error>, effects: seq<Effect>)

  /**
   * The archive loop: each archive's `member` is opened in turn and its rows
   * consumed; the first archive without the member raises, ending the loop.
   */
  function Scan(archives: seq<Archive>, member: string): (s: Scanned)
    ensures s.result.Ok? ==> |s.result.value.cols| == HeaderCount
    ensures |s.effects| <= |archives|
    ensures forall k | 0 <= k < |s.effects| :: s.effects[k] == OpenMember(k, member)
    ensures s.result.Ok? <==> forall k | 0 <= k < |archives| :: member in archives[k]
    ensures s.result.Ok? ==> |s.effects| == |archives|
    ensures s.result.Err? ==>
              && |s.effects| > 0
              && s.result.error == MissingMember(|s.effects| - 1, member)
              && member !in archives[|s.effects| - 1]
              && forall k | 0 <= k < |s.effects| - 1 :: member in archives[k]
  {
    if archives == [] then Scanned(Ok(Start), [])
    else
      var n := |archives| - 1;
      var prev := Scan(archives[..n], member);
      if prev.result.Err? then
        Scanned(prev.result, prev.effects)
      else
        var effects := prev.effects + [OpenMember(n, member)];
        if member in archives[n] then
          Scanned(Ok(StepRows(prev.result.value, archives[n][member])), effects)
        else
          Scanned(Err(MissingMember(n, member)), effects)
  }

  /** When every archive has the member, the scan is the row loop over all their rows together. */
  lemma {:induction false} ScanReadsAllRows(archives: seq<Archive>, member: string)
    requires forall k | 0 <= k < |archives| :: member in archives[k]
    ensures Scan(archives, member).result == Ok(StepRows(Start, AllRows(archives, member)))
  {
    if archives != [] {
      var n := |archives| - 1;
      ScanReadsAllRows(archives[..n], member);
      StepRowsAppend(Start, AllRows(archives[..n], member), archives[n][member]);
    }
  }

  /** The member read from each archive: `region_id + ".csv"`. */
  function MemberName(code: string): (m: string)
    ensures |m| == |code| + 4 && m[..|code|] == code
  {
    code + ".csv"
  }

  /** Different codes never name the same archive member. */
  lemma MemberNameInjective(a: string, b: string)
    requires MemberName(a) == MemberName(b)
    ensures a == b
  {
  }

  /** The dict `parse_region_data` returns: one entry per header, then "region" as long as the `p1` column. */
  function ToColumns(cols: seq<seq<Value>>, region: string): (d: Columns)
    requires |cols| == HeaderCount
    ensures d.Keys == OutputKeys
    ensures forall i | 0 <= i < HeaderCount :: d[HeaderAt(i).name] == cols[i]
    ensures d[RegionColumn] == Repeat(Str(region), |cols[0]|)
  {
    map name | name in OutputKeys ::
      if name == RegionColumn then Repeat(Str(region), |cols[0]|) else cols[NameIndex(name)]
  }

  /**
   * The shape every parse result has: the header columns and "region", the
   * latter naming `region` once per entry of the `p1` column.
   */
  predicate WellFormed(d: Columns, region: string) {
    && d.Keys == OutputKeys
    && RegionColumn in d
    && HeaderAt(0).name in d
    && d[RegionColumn] == Repeat(Str(region), |d[HeaderAt(0).name]|)
  }

  datatype Parsed = Parsed(result: Result<Columns, Error>, effects: seq<Effect>)

  /**
   * `parse_region_data(region)`. The region code is looked up first, so an
   * unknown name raises before anything is downloaded or opened; then
   * `download_data` runs, then every archive's member is scanned.
   */
  function ParseRegion(region: string, archives: seq<Archive>): (p: Parsed)
    ensures RegionCode(region).None? ==> p == Parsed(Err(UnknownRegion(region)), [])
    ensures RegionCode(region).Some? ==>
              && 0 < |p.effects| <= |archives| + 1
              && p.effects[0] == Download
              && forall k | 1 <= k < |p.effects| ::
                   p.effects[k] == OpenMember(k - 1, MemberName(RegionCode(region).value))
    ensures p.result.Ok? ==>
              && RegionCode(region).Some?
              && |p.effects| == |archives| + 1
              && WellFormed(p.result.value, region)
    ensures (p.result.Err? && RegionCode(region).Some?) ==>
              && p.result.error.MissingMember?
              && p.result.error.member == MemberName(RegionCode(region).value)
              && p.result.error.archive == |p.effects| - 2 < |archives|
              && p.result.error.member !in archives[p.result.error.archive]
              && forall k | 0 <= k < p.result.error.archive :: p.result.error.member in archives[k]
  {
    match RegionCode(region)
    case None => Parsed(Err(UnknownRegion(region)), [])
    case Some(code) =>
      var scan := Scan(archives, MemberName(code));
      var effects := [Download] + scan.effects;
      match scan.result
      case Ok(acc) => Parsed(Ok(ToColumns(acc.cols, region)), effects)
      case Err(e) => Parsed(Err(e), effects)
  }

  /**
   * What a successful parse holds: column i is the validated i-th tokens of
   * the first occurrences among all the region's rows, and "region" has one
   * entry per accepted row.
   */
  lemma ParseRegionContents(region: string, archives: seq<Archive>)
    requires RegionCode(region).Some?
    requires forall k | 0 <= k < |archives| :: RegionMember(region) in archives[k]
    ensures ParseRegion(region, archives).result.Ok?
    ensures var d := ParseRegion(region, archives).result.value;
            var kept := Kept(AllRows(archives, RegionMember(region)));
            && (forall i | 0 <= i < HeaderCount :: d[HeaderAt(i).name] == Column(kept, i))
            && d[RegionColumn] == Repeat(Str(region), |kept|)
  {
    var rows := AllRows(archives, RegionMember(region));
    ScanReadsAllRows(archives, RegionMember(region));
    StepRowsComputesColumns(rows);
    KeptIdsDistinct(rows);
    FirstColumnLength(Kept(rows));
  }

  /** The member a known region reads. */
  function RegionMember(region: string): string
    requires RegionCode(region).Some?
  {
    MemberName(RegionCode(region).value)
  }

  /**
   * When no row is short (every row is empty or has at least 64 tokens),
   * every column, "region" included, has one entry per accepted row.
   */
  lemma ParseRegionRectangular(region: string, archives: seq<Archive>)
    requires RegionCode(region).Some?
    requires forall k | 0 <= k < |archives| :: RegionMember(region) in archives[k]
    requires forall k, j | 0 <= k < |archives| && 0 <= j < |archives[k][RegionMember(region)]| ::
               |archives[k][RegionMember(region)][j]| == 0 || |archives[k][RegionMember(region)][j]| >= HeaderCount
    ensures ParseRegion(region, archives).result.Ok?
    ensures var d := ParseRegion(region, archives).result.value;
            forall key | key in OutputKeys :: |d[key]| == |Kept(AllRows(archives, RegionMember(region)))|
  {
    var rows := AllRows(archives, RegionMember(region));
    ParseRegionContents(region, archives);
    AllRowsShape(archives, RegionMember(region));
    KeptColumnsFull(rows);
    var d := ParseRegion(region, archives).result.value;
    EqualColumns(d, Kept(rows), region);
  }

  /** A column set holding the columns of `kept` and the region column has every column as long as `kept`. */
  lemma EqualColumns(d: Columns, kept: seq<Row>, region: string)
    requires d.Keys == OutputKeys
    requires forall i | 0 <= i < HeaderCount :: d[HeaderAt(i).name] == Column(kept, i)
    requires forall i | 0 <= i < HeaderCount :: |Column(kept, i)| == |kept|
    requires d[RegionColumn] == Repeat(Str(region), |kept|)
    ensures forall key | key in OutputKeys :: |d[key]| == |kept|
  {
    forall key | key in OutputKeys ensures |d[key]| == |kept| {
      if key != RegionColumn {
        OutputKeyIndex(key);
        assert d[HeaderAt(NameIndex(key)).name] == Column(kept, NameIndex(key));
      }
    }
  }

  /** Without short rows, every column of the accepted rows has one entry per accepted row. */
  lemma KeptColumnsFull(rows: seq<Row>)
    requires forall r | r in rows :: |r| == 0 || |r| >= HeaderCount
    ensures forall i | 0 <= i < HeaderCount :: |Column(Kept(rows), i)| == |Kept(rows)|
  {
    KeptRowsLong(rows);
    forall i | 0 <= i < HeaderCount ensures |Column(Kept(rows), i)| == |Kept(rows)| {
      ColumnLengthLongRows(Kept(rows), i);
    }
  }

  /** Deduplication keeps only rows it was given, so it keeps no short row if there was none. */
  lemma KeptRowsLong(rows: seq<Row>)
    requires forall r | r in rows :: |r| == 0 || |r| >= HeaderCount
    ensures forall a | 0 <= a < |Kept(rows)| :: |Kept(rows)[a]| >= HeaderCount
  {
    KeptIdsDistinct(rows);
    KeptIsFirstOccurrences(rows);
    forall a | 0 <= a < |Kept(rows)| ensures |Kept(rows)[a]| >= HeaderCount {
      assert Kept(rows)[a] in Kept(rows);
    }
  }

  lemma {:induction false} AllRowsShape(archives: seq<Archive>, member: string)
    requires forall k | 0 <= k < |archives| :: member in archives[k]
    requires forall k, j | 0 <= k < |archives| && 0 <= j < |archives[k][member]| ::
               |archives[k][member][j]| == 0 || |archives[k][member][j]| >= HeaderCount
    ensures forall r | r in AllRows(archives, member) :: |r| == 0 || |r| >= HeaderCount
  {
    if archives != [] {
      AllRowsShape(archives[..|archives| - 1], member);
    }
  }
}
